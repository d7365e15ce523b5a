/** Whole runs of insertions and deletions on one index. */
module BPlusRun {
  import opened BPlusState
  import opened BPlusContents
  import opened BPlusInsertRefine
  import opened BPlusDrops
  import opened BPlusDeleteRefine
  import opened BPlusTheorems
  import opened BPlusCapacity
  import opened BPlusTree
  import opened BufferPool

  datatype Op = Insert(e: Entry) | Delete(key: int)

  predicate InLimit(c: Cfg, op: Op) {
    0 <= (if op.Insert? then op.e.key else op.key) < c.limit
  }

  // ---- the abstract index: a set of entries ----

  ghost function After(all: set<Entry>, op: Op): set<Entry> {
    match op
    case Insert(e) => if Holds(all, e.key) then all else all + {e}
    case Delete(key) => set e | e in all && e.key != key
  }

  ghost function Answer(all: set<Entry>, op: Op): Rc {
    match op
    case Insert(e) => if Holds(all, e.key) then DuplicateKey else Success
    case Delete(key) => if Holds(all, key) then Success else NotExist
  }

  ghost function AfterAll(all: set<Entry>, ops: seq<Op>): set<Entry> {
    if ops == [] then all else After(AfterAll(all, ops[..|ops| - 1]), ops[|ops| - 1])
  }

  ghost function Answers(all: set<Entry>, ops: seq<Op>): seq<Rc> {
    if ops == [] then []
    else Answers(all, ops[..|ops| - 1]) + [Answer(AfterAll(all, ops[..|ops| - 1]), ops[|ops| - 1])]
  }

  /** The number of insertions of a key that is present by then. */
  ghost function Repeats(all: set<Entry>, ops: seq<Op>): nat {
    if ops == [] then 0
    else
      var n := |ops| - 1;
      Repeats(all, ops[..n]) + if ops[n].Insert? && Holds(AfterAll(all, ops[..n]), ops[n].e.key) then 1 else 0
  }

  lemma StepBack(all: set<Entry>, ops: seq<Op>, i: nat)
    requires i < |ops|
    ensures AfterAll(all, ops[..i + 1]) == After(AfterAll(all, ops[..i]), ops[i])
    ensures Answers(all, ops[..i + 1]) == Answers(all, ops[..i]) + [Answer(AfterAll(all, ops[..i]), ops[i])]
  {
    assert ops[..i + 1][..i] == ops[..i];
  }

  /** Deleting the one entry with a key leaves the entries with other keys. */
  lemma DeleteIsAfter(c: Cfg, s: St, key: int, after: set<Entry>)
    requires Inv(c, s)
    requires !HasKey(s, key) ==> after == Contents(s)
    requires forall e :: e in Contents(s) && e.key == key ==> after == Contents(s) - {e}
    ensures after == After(Contents(s), Delete(key))
  {
    if HasKey(s, key) {
      var e :| e in Contents(s) && e.key == key;
      assert s.root != -1;
      forall f | f in Contents(s) && f.key == key
        ensures f == e
      {
        KeyUnique(c, s, e, f);
      }
      assert after == Contents(s) - {e};
    }
  }

  // ---- what stops an operation ----

  /** The operation cannot be completed: an insertion of a new key needs more pages than there are, or
      a deletion disposes of a page that is pinned. */
  ghost predicate Stops(c: Cfg, s: St, pins: multiset<int>, room: int, op: Op) {
    match op
    case Insert(e) => !HasKey(s, e.key) && !EnoughAt(c, s, room, e.key)
    case Delete(key) => HasKey(s, key) && !Unheld(pins, Drops(c, s, key))
  }

  predicate IsStop(rc: Rc) {
    rc == NoBuf || rc == IoErrRead || rc == AssertionFailed
  }

  function StopCode(op: Op, steady: bool): Rc {
    if op.Delete? then AssertionFailed else if steady then NoBuf else IoErrRead
  }

  /** The pages that a tree can still get in a file with a bitmap of `bytes` bytes; `steady` says that no
      page waits unreadable to be used again. */
  ghost function RoomOf(bytes: nat, s: St, steady: bool): int {
    if steady then 8 * bytes - 2 - |s.pages| else 0
  }

  lemma RoomIs(tree: BplusTreeHandler)
    requires tree.Valid()
    ensures tree.pool.Room() == RoomOf(tree.pool.bytes, tree.S(), tree.pool.Steady())
    ensures tree.pool.Free() == 8 * tree.pool.bytes - 2 - |tree.pages|
  {
    assert 0 !in tree.pages.Keys && 1 !in tree.pages.Keys;
    TwoMore(tree.pages.Keys);
  }

  lemma TwoMore(keys: set<int>)
    requires 0 !in keys && 1 !in keys
    ensures |{0, 1} + keys| == 2 + |keys|
  {
    assert {0, 1} !! keys;
  }

  // ---- one operation ----

  /** The pin that a repeated insertion leaves: on the leaf that covers the key. */
  ghost function LeakOf(s: St, op: Op): multiset<int> {
    if op.Insert? && HasKey(s, op.e.key) && exists p :: Covers(s, p, op.e.key)
    then var p :| Covers(s, p, op.e.key); multiset{p}
    else multiset{}
  }

  /** A deletion that gives pages back. */
  ghost predicate GivesBack(c: Cfg, s: St, op: Op) {
    op.Delete? && Drops(c, s, op.key) != {}
  }

  ghost predicate HasLeaf(s: St, key: int) {
    (exists p :: Covers(s, p, key)) && forall p :: Covers(s, p, key) ==> p >= 2
  }

  /** `t` is what a completed operation makes of `s`: the entries, and the pages taken or given back. */
  ghost predicate Step(c: Cfg, s: St, op: Op, t: St) {
    && Contents(t) == After(Contents(s), op)
    && match op
       case Insert(e) => if HasKey(s, e.key) then t == s && HasLeaf(s, e.key) else UsedAt(c, s, |t.pages| - |s.pages|, e.key)
       case Delete(key) => t.pages.Keys == s.pages.Keys - Drops(c, s, key) && (!HasKey(s, key) ==> t == s)
  }

  /** What a completed operation does, from the state `s`. */
  ghost predicate Done(tree: BplusTreeHandler, op: Op, rc: Rc, s: St, pins: multiset<int>, steady: bool)
    reads tree, tree.pool
  {
    && tree.Valid() && rc == Answer(Contents(s), op) && Step(tree.c, s, op, tree.S())
    && tree.pool.pins == pins + LeakOf(s, op)
    && (tree.pool.Steady() <==> tree.pool.stored || (steady && !GivesBack(tree.c, s, op)))
  }

  /** What a stopped insertion into `s` leaves: nothing has changed, unless it used up the last free pages
      and its entry is in. After a failed assertion there is nothing to say. */
  ghost predicate Stuck(tree: BplusTreeHandler, op: Op, rc: Rc, s: St, room: int)
    reads tree, tree.pool
  {
    && (rc == IoErrRead || (rc == NoBuf && room == 0) ==> tree.S() == s)
    && (rc == NoBuf && room > 0 && op.Insert? ==> Contents(tree.S()) == Contents(s) + {op.e})
  }

  lemma LeakIs(c: Cfg, s: St, e: Entry, leaf: int)
    requires Inv(c, s) && HasKey(s, e.key) && Covers(s, leaf, e.key)
    ensures LeakOf(s, Insert(e)) == multiset{leaf} && HasLeaf(s, e.key)
  {
    OneCovers(c, s, leaf, e.key);
  }

  method DoInsert(tree: BplusTreeHandler, e: Entry, ghost s: St) returns (rc: Rc)
    requires tree.Valid() && s == tree.S() && 0 <= e.key < tree.c.limit
    modifies tree, tree.pool
    ensures IsStop(rc) <==> Stops(tree.c, s, old(tree.pool.pins), old(tree.pool.Room()), Insert(e))
    ensures IsStop(rc) ==> rc == StopCode(Insert(e), old(tree.pool.Steady())) && Stuck(tree, Insert(e), rc, s, old(tree.pool.Room()))
    ensures !IsStop(rc) ==> Done(tree, Insert(e), rc, s, old(tree.pool.pins), old(tree.pool.Steady()))
  {
    RoomIs(tree);
    ghost var steady, free, pins := tree.pool.Steady(), tree.pool.Free(), tree.pool.pins;
    rc := tree.InsertEntry(e);
    InsertIsDone(tree, e, rc, s, steady, free, pins);
  }

  lemma InsertIsDone(tree: BplusTreeHandler, e: Entry, rc: Rc, s: St, steady: bool, free: int, pins: multiset<int>)
    requires Inv(tree.c, s) && tree.Inserted(rc, e, s, steady, free, pins)
    requires free == 8 * tree.pool.bytes - 2 - |s.pages| && (tree.pool.stored ==> steady)
    ensures IsStop(rc) <==> Stops(tree.c, s, pins, if steady then free else 0, Insert(e))
    ensures IsStop(rc) ==> rc == StopCode(Insert(e), steady) && Stuck(tree, Insert(e), rc, s, if steady then free else 0)
    ensures !IsStop(rc) ==> Done(tree, Insert(e), rc, s, pins, steady)
  {
    if rc == DuplicateKey {
      RepeatedStep(tree, e, s, pins);
    } else if rc == Success {
      RoomIs(tree);
      InsertedStep(tree.c, s, e, tree.S());
    }
  }

  lemma RepeatedStep(tree: BplusTreeHandler, e: Entry, s: St, pins: multiset<int>)
    requires Inv(tree.c, s) && HasKey(s, e.key) && tree.S() == s && tree.LeafPinned(e.key, pins)
    ensures tree.pool.pins == pins + LeakOf(s, Insert(e)) && HasLeaf(s, e.key)
  {
    var leaf :| Covers(tree.S(), leaf, e.key) && tree.pool.pins == pins + multiset{leaf};
    LeakIs(tree.c, s, e, leaf);
  }

  lemma InsertedStep(c: Cfg, s: St, e: Entry, t: St)
    requires Inv(c, s) && Inv(c, t) && !HasKey(s, e.key) && Contents(t) == Contents(s) + {e}
    requires UsedAt(c, s, |t.pages| - |s.pages|, e.key)
    ensures Step(c, s, Insert(e), t)
  {
  }

  method DoDelete(tree: BplusTreeHandler, key: int, ghost s: St) returns (rc: Rc)
    requires tree.Valid() && s == tree.S() && 0 <= key < tree.c.limit
    modifies tree, tree.pool
    ensures IsStop(rc) <==> Stops(tree.c, s, old(tree.pool.pins), old(tree.pool.Room()), Delete(key))
    ensures IsStop(rc) ==> rc == StopCode(Delete(key), old(tree.pool.Steady()))
    ensures !IsStop(rc) ==> Done(tree, Delete(key), rc, s, old(tree.pool.pins), old(tree.pool.Steady()))
  {
    ghost var steady, pins := tree.pool.Steady(), tree.pool.pins;
    rc := tree.DeleteEntry(key);
    if rc != AssertionFailed {
      DeletedStep(tree.c, s, key, tree.S());
    }
    DeleteIsDone(tree, key, rc, s, steady, pins);
  }

  lemma DeleteIsDone(tree: BplusTreeHandler, key: int, rc: Rc, s: St, steady: bool, pins: multiset<int>)
    requires tree.Deleted(rc, key, s, pins)
    requires rc != AssertionFailed ==> (tree.pool.Steady() <==> tree.pool.stored || (steady && Drops(tree.c, s, key) == {}))
    requires rc != AssertionFailed ==> Step(tree.c, s, Delete(key), tree.S())
    ensures IsStop(rc) ==> rc == AssertionFailed && HasKey(s, key) && !Unheld(pins, Drops(tree.c, s, key))
    ensures !IsStop(rc) ==> !(HasKey(s, key) && !Unheld(pins, Drops(tree.c, s, key)))
    ensures !IsStop(rc) ==> Done(tree, Delete(key), rc, s, pins, steady)
  {
  }

  lemma DeletedStep(c: Cfg, s: St, key: int, t: St)
    requires Inv(c, s) && Inv(c, t) && t.pages.Keys == s.pages.Keys - Drops(c, s, key)
    requires !HasKey(s, key) ==> t == s
    requires HasKey(s, key) ==> forall e :: e in Contents(s) && e.key == key ==> Contents(t) == Contents(s) - {e}
    ensures Step(c, s, Delete(key), t)
  {
    DeleteIsAfter(c, s, key, Contents(t));
  }

  /** One operation: it stops exactly if `Stops` says so, and otherwise behaves like the abstract index.
      Only a repeated insertion leaves a pin. */
  method Do(tree: BplusTreeHandler, op: Op, ghost s: St) returns (rc: Rc)
    requires tree.Valid() && s == tree.S() && InLimit(tree.c, op)
    modifies tree, tree.pool
    ensures IsStop(rc) <==> Stops(tree.c, s, old(tree.pool.pins), old(tree.pool.Room()), op)
    ensures IsStop(rc) ==> rc == StopCode(op, old(tree.pool.Steady())) && Stuck(tree, op, rc, s, old(tree.pool.Room()))
    ensures !IsStop(rc) ==> Done(tree, op, rc, s, old(tree.pool.pins), old(tree.pool.Steady()))
  {
    if op.Insert? {
      rc := DoInsert(tree, op.e, s);
    } else {
      rc := DoDelete(tree, op.key, s);
    }
  }

  // ---- whole runs ----

  /** Where a run starts: the index, the size of the bitmap, whether pages given back can be read again,
      whether none waits unreadable to be used again, and the pins. */
  datatype Start = Start(c: Cfg, bytes: nat, stored: bool, steady: bool, pins: multiset<int>)

  /** The pins left by the operations, `trace` being the states before, between and after them. */
  ghost function Leaks(trace: seq<St>, ops: seq<Op>): multiset<int>
    requires |trace| == |ops| + 1
  {
    if ops == [] then multiset{}
    else
      var n := |ops| - 1;
      Leaks(trace[..n + 1], ops[..n]) + LeakOf(trace[n], ops[n])
  }

  /** No page waits unreadable to be used again once the operations are done. */
  ghost predicate SteadyAfter(b: Start, trace: seq<St>, ops: seq<Op>)
    requires |trace| == |ops| + 1
  {
    if ops == [] then b.stored || b.steady
    else
      var n := |ops| - 1;
      b.stored || (SteadyAfter(b, trace[..n + 1], ops[..n]) && !GivesBack(b.c, trace[n], ops[n]))
  }

  ghost function RoomAfter(b: Start, trace: seq<St>, ops: seq<Op>): int
    requires |trace| == |ops| + 1
  {
    RoomOf(b.bytes, trace[|ops|], SteadyAfter(b, trace, ops))
  }

  /** After `ops`, the operation `op` is stopped. */
  ghost predicate StopsAfter(b: Start, trace: seq<St>, ops: seq<Op>, op: Op)
    requires |trace| == |ops| + 1
  {
    Stops(b.c, trace[|ops|], b.pins + Leaks(trace, ops), RoomAfter(b, trace, ops), op)
  }

  /** `trace` is the states that the operations go through, none of them being stopped. */
  ghost predicate Trace(b: Start, trace: seq<St>, ops: seq<Op>) {
    && |trace| == |ops| + 1
    && (ops == [] ||
        var n := |ops| - 1;
        && Trace(b, trace[..n + 1], ops[..n]) && !StopsAfter(b, trace[..n + 1], ops[..n], ops[n])
        && Step(b.c, trace[n], ops[n], trace[n + 1]))
  }

  ghost predicate AllInv(c: Cfg, trace: seq<St>) {
    forall i {:trigger Inv(c, trace[i])} :: 0 <= i < |trace| ==> Inv(c, trace[i])
  }

  lemma AllInvOn(c: Cfg, trace: seq<St>, t: St)
    requires AllInv(c, trace) && Inv(c, t)
    ensures AllInv(c, trace + [t])
  {
    forall i | 0 <= i < |trace + [t]|
      ensures Inv(c, (trace + [t])[i])
    {
      assert i < |trace| ==> Inv(c, trace[i]);
    }
  }

  /** One more operation that is not stopped. */
  lemma TraceOn(b: Start, trace: seq<St>, ops: seq<Op>, op: Op, t: St)
    requires Trace(b, trace, ops) && !StopsAfter(b, trace, ops, op) && Step(b.c, trace[|ops|], op, t)
    ensures Trace(b, trace + [t], ops + [op])
    ensures Leaks(trace + [t], ops + [op]) == Leaks(trace, ops) + LeakOf(trace[|ops|], op)
    ensures SteadyAfter(b, trace + [t], ops + [op]) <==> b.stored || (SteadyAfter(b, trace, ops) && !GivesBack(b.c, trace[|ops|], op))
  {
    OneMore(trace, t);
    OneMore(ops, op);
  }

  lemma OneMore<T>(xs: seq<T>, x: T)
    ensures |xs + [x]| == |xs| + 1 && (xs + [x])[..|xs|] == xs && (xs + [x])[|xs|] == x && xs + [x] != []
    ensures forall i :: 0 <= i < |xs| ==> (xs + [x])[i] == xs[i]
  {
  }

  lemma LeakSize(c: Cfg, s: St, op: Op, t: St)
    requires Step(c, s, op, t)
    ensures |LeakOf(s, op)| == if op.Insert? && HasKey(s, op.e.key) then 1 else 0
    ensures forall x :: x in LeakOf(s, op) ==> x >= 2
  {
  }

  /** A run leads to a state that holds what the set holds, and every repeated insertion leaves a pin. */
  lemma {:induction false} TraceHolds(b: Start, trace: seq<St>, ops: seq<Op>)
    requires Trace(b, trace, ops)
    ensures Contents(trace[|ops|]) == AfterAll(Contents(trace[0]), ops)
    ensures |Leaks(trace, ops)| == Repeats(Contents(trace[0]), ops)
  {
    if ops != [] {
      var n := |ops| - 1;
      TraceHolds(b, trace[..n + 1], ops[..n]);
      LeakSize(b.c, trace[n], ops[n], trace[n + 1]);
    }
  }

  /** Only deletions make pages wait to be used again. */
  lemma {:induction false} SteadyUnlessDeleted(b: Start, trace: seq<St>, ops: seq<Op>)
    requires |trace| == |ops| + 1 && (b.stored || b.steady) && !SteadyAfter(b, trace, ops)
    ensures exists i :: 0 <= i < |ops| && ops[i].Delete?
  {
    var n := |ops| - 1;
    if ops[n].Insert? {
      SteadyUnlessDeleted(b, trace[..n + 1], ops[..n]);
      var i :| 0 <= i < n && ops[..n][i].Delete?;
      assert ops[i].Delete?;
    }
  }

  ghost function StartOf(tree: BplusTreeHandler): Start
    reads tree, tree.pool
  {
    Start(tree.c, tree.pool.bytes, tree.pool.stored, tree.pool.Steady(), tree.pool.pins)
  }

  /** The tree after a run in which no operation was stopped. */
  ghost predicate Reached(tree: BplusTreeHandler, b: Start, trace: seq<St>, ops: seq<Op>)
    reads tree, tree.pool
  {
    && Trace(b, trace, ops) && AllInv(b.c, trace) && tree.Valid() && tree.S() == trace[|ops|]
    && StartOf(tree) == Start(b.c, b.bytes, b.stored, SteadyAfter(b, trace, ops), b.pins + Leaks(trace, ops))
  }

  /** The next operation of a run. */
  method DoNext(tree: BplusTreeHandler, ghost b: Start, ghost trace: seq<St>, ghost ops: seq<Op>, op: Op) returns (rc: Rc)
    requires InLimit(tree.c, op) && Reached(tree, b, trace, ops)
    modifies tree, tree.pool
    ensures IsStop(rc) <==> StopsAfter(b, trace, ops, op)
    ensures IsStop(rc) ==>
      rc == StopCode(op, SteadyAfter(b, trace, ops)) && Stuck(tree, op, rc, trace[|ops|], RoomAfter(b, trace, ops))
    ensures !IsStop(rc) ==>
      && rc == Answer(Contents(trace[|ops|]), op) && Contents(tree.S()) == After(Contents(trace[|ops|]), op)
      && Reached(tree, b, trace + [tree.S()], ops + [op])
  {
    RoomIs(tree);
    rc := Do(tree, op, trace[|ops|]);
    if !IsStop(rc) {
      TraceOn(b, trace, ops, op, tree.S());
      AllInvOn(b.c, trace, tree.S());
    }
  }

  /** How a run that completed the operations `done` ends: the last state of its trace holds what the set
      holds, and the next operation, if there is one, is stopped by what `Stops` says of that state. */
  ghost predicate Ends(b: Start, trace: seq<St>, ops: seq<Op>, done: nat, stop: Rc)
    requires done <= |ops|
  {
    && Trace(b, trace, ops[..done]) && AllInv(b.c, trace) && Contents(trace[done]) == AfterAll(Contents(trace[0]), ops[..done])
    && (done == |ops| ==> stop == Success)
    && (done < |ops| ==>
      StopsAfter(b, trace, ops[..done], ops[done]) && stop == StopCode(ops[done], SteadyAfter(b, trace, ops[..done])))
  }

  /** Only the two header pages are pinned. */
  ghost predicate OnlyHeaders(pins: multiset<int>) {
    forall x :: x in pins ==> x == 0 || x == 1
  }

  /** What a stop after `n` operations says about the operations and the set of entries. */
  ghost predicate Cause(b: Start, all: set<Entry>, ops: seq<Op>, n: nat, stop: Rc)
    requires n <= |ops|
  {
    && (stop == NoBuf ==> n < |ops| && ops[n].Insert? && 8 * b.bytes - 2 < |AfterAll(all, ops[..n])|)
    && (stop == IoErrRead ==> n < |ops| && ops[n].Insert? && !b.stored && (!b.steady || exists i :: 0 <= i < n && ops[i].Delete?))
    && (stop == AssertionFailed ==> n < |ops| && ops[n].Delete? && (Repeats(all, ops[..n]) > 0 || !OnlyHeaders(b.pins)))
  }

  /** Out of pages, there are more entries than pages for the tree. */
  lemma InsertStops(c: Cfg, s: St, pins: multiset<int>, bytes: nat, e: Entry)
    requires Inv(c, s) && bytes >= 1 && Stops(c, s, pins, RoomOf(bytes, s, true), Insert(e))
    ensures 8 * bytes - 2 < |Contents(s)|
  {
    if 8 * bytes - 2 >= |Contents(s)| {
      RoomForNext(c, s, e, 8 * bytes - 2);
    }
  }

  lemma DeleteStops(c: Cfg, s: St, base: multiset<int>, leaks: multiset<int>, room: int, key: int)
    requires Inv(c, s) && Stops(c, s, base + leaks, room, Delete(key))
    ensures |leaks| > 0 || !OnlyHeaders(base)
  {
    DropsInTree(c, s, key);
    if |leaks| == 0 {
      assert leaks == multiset{};
    }
  }

  lemma RunStops(b: Start, trace: seq<St>, ops: seq<Op>, n: nat)
    requires n < |ops| && Trace(b, trace, ops[..n]) && StopsAfter(b, trace, ops[..n], ops[n]) && b.bytes >= 1 && AllInv(b.c, trace)
    requires Contents(trace[n]) == AfterAll(Contents(trace[0]), ops[..n])
    ensures Ends(b, trace, ops, n, StopCode(ops[n], SteadyAfter(b, trace, ops[..n])))
    ensures Cause(b, Contents(trace[0]), ops, n, StopCode(ops[n], SteadyAfter(b, trace, ops[..n])))
  {
    var steady, leaks := SteadyAfter(b, trace, ops[..n]), Leaks(trace, ops[..n]);
    var pins := b.pins + leaks;
    if ops[n].Insert? {
      if steady {
        InsertStops(b.c, trace[n], pins, b.bytes, ops[n].e);
      } else if b.stored || b.steady {
        SteadyUnlessDeleted(b, trace, ops[..n]);
        var i :| 0 <= i < n && ops[..n][i].Delete?;
        assert ops[i].Delete?;
      }
    } else {
      TraceHolds(b, trace, ops[..n]);
      DeleteStops(b.c, trace[n], b.pins, leaks, RoomOf(b.bytes, trace[n], steady), ops[n].key);
    }
  }

  lemma RunCompletes(b: Start, trace: seq<St>, ops: seq<Op>)
    requires Trace(b, trace, ops) && AllInv(b.c, trace) && Contents(trace[|ops|]) == AfterAll(Contents(trace[0]), ops)
    ensures Ends(b, trace, ops, |ops|, Success) && Cause(b, Contents(trace[0]), ops, |ops|, Success)
  {
    assert ops[..|ops|] == ops;
  }

  lemma NextAnswer(all: set<Entry>, ops: seq<Op>, n: nat, s: St, t: St)
    requires n < |ops| && Contents(s) == AfterAll(all, ops[..n]) && Contents(t) == After(Contents(s), ops[n])
    ensures Answers(all, ops[..n + 1]) == Answers(all, ops[..n]) + [Answer(Contents(s), ops[n])]
    ensures Contents(t) == AfterAll(all, ops[..n + 1]) && ops[..n] + [ops[n]] == ops[..n + 1]
  {
    StepBack(all, ops, n);
  }

  /** The loop of a run after its first `n` operations. */
  ghost predicate Going(tree: BplusTreeHandler, b: Start, all: set<Entry>, trace: seq<St>, ops: seq<Op>, n: nat, rcs: seq<Rc>)
    reads tree, tree.pool
  {
    && n == |rcs| <= |ops| && Reached(tree, b, trace, ops[..n]) && rcs == Answers(all, ops[..n])
    && Contents(trace[0]) == all && Contents(trace[n]) == AfterAll(all, ops[..n])
  }

  method DoNth(tree: BplusTreeHandler, ghost b: Start, ghost all: set<Entry>, ghost trace: seq<St>, ops: seq<Op>, n: nat, rcs: seq<Rc>)
    returns (rc: Rc)
    requires n < |ops| && InLimit(tree.c, ops[n]) && Going(tree, b, all, trace, ops, n, rcs)
    modifies tree, tree.pool
    ensures IsStop(rc) ==> Ends(b, trace, ops, n, rc) && Cause(b, all, ops, n, rc)
    ensures IsStop(rc) ==> Stuck(tree, ops[n], rc, trace[n], RoomAfter(b, trace, ops[..n]))
    ensures !IsStop(rc) ==> Going(tree, b, all, trace + [tree.S()], ops, n + 1, rcs + [rc])
  {
    rc := DoNext(tree, b, trace, ops[..n], ops[n]);
    if IsStop(rc) {
      RunStops(b, trace, ops, n);
    } else {
      NextAnswer(all, ops, n, trace[n], tree.S());
    }
  }

  /** A run of operations: the index answers like a set of entries and holds what the set holds, until an
      operation is stopped, and no operation is stopped unless `Stops` says so of the state it starts from.
      Out of pages, the set has more entries than the bitmap has bits for index pages; an unreadable page
      is one that a deletion gave back; and a deletion fails only after a repeated insertion, or if a page
      of the tree was pinned at the start. */
  method Run(tree: BplusTreeHandler, ops: seq<Op>) returns (rcs: seq<Rc>, stop: Rc, ghost trace: seq<St>)
    requires tree.Valid()
    requires forall i :: 0 <= i < |ops| ==> InLimit(tree.c, ops[i])
    modifies tree, tree.pool
    ensures |rcs| <= |ops| && rcs == Answers(old(Contents(tree.S())), ops[..|rcs|])
    ensures Ends(old(StartOf(tree)), trace, ops, |rcs|, stop) && trace[0] == old(tree.S())
    ensures |rcs| == |ops| ==> Reached(tree, old(StartOf(tree)), trace, ops)
    ensures |rcs| < |ops| ==> Stuck(tree, ops[|rcs|], stop, trace[|rcs|], RoomAfter(old(StartOf(tree)), trace, ops[..|rcs|]))
    ensures Cause(old(StartOf(tree)), old(Contents(tree.S())), ops, |rcs|, stop)
  {
    ghost var b, all := StartOf(tree), Contents(tree.S());
    rcs, trace := [], [tree.S()];
    assert b.pins + multiset{} == b.pins;
    var n := 0;
    while n < |ops|
      invariant n == |rcs| <= |ops| && Going(tree, b, all, trace, ops, n, rcs) && trace[0] == old(tree.S())
      decreases |ops| - n
    {
      stop := DoNth(tree, b, all, trace, ops, n, rcs);
      if IsStop(stop) {
        return;
      }
      trace, rcs, n := trace + [tree.S()], rcs + [stop], n + 1;
    }
    stop := Success;
    assert ops[..n] == ops;
    RunCompletes(b, trace, ops);
  }

  // ---- runs on a new file ----

  function NewFile(c: Cfg, bytes: nat, stored: bool): Start {
    Start(c, bytes, stored, true, multiset{0})
  }

  /** No operation of a run on a new file can be stopped: the set of entries never outgrows the bitmap
      before an operation, and either nothing is deleted, or pages given back can be read again and no key is
      inserted while it is present. */
  ghost predicate Unstoppable(bytes: nat, stored: bool, ops: seq<Op>) {
    && (forall n :: 0 <= n < |ops| ==> |AfterAll({}, ops[..n])| <= 8 * bytes - 2)
    && ((forall n :: 0 <= n < |ops| ==> ops[n].Insert?) || (stored && Repeats({}, ops) == 0))
  }

  lemma {:induction false} RepeatsGrow(all: set<Entry>, ops: seq<Op>, n: nat)
    requires n <= |ops|
    ensures Repeats(all, ops[..n]) <= Repeats(all, ops)
    decreases |ops| - n
  {
    if n == |ops| {
      assert ops[..n] == ops;
    } else {
      RepeatsGrow(all, ops, n + 1);
      assert ops[..n + 1][..n] == ops[..n];
    }
  }

  /** A set grows by at most one entry per operation. */
  lemma {:induction false} AfterAllSize(all: set<Entry>, ops: seq<Op>)
    ensures |AfterAll(all, ops)| <= |all| + |ops|
  {
    if ops != [] {
      var before := AfterAll(all, ops[..|ops| - 1]);
      AfterAllSize(all, ops[..|ops| - 1]);
      if ops[|ops| - 1].Delete? {
        SubsetSize(AfterAll(all, ops), before);
      }
    }
  }

  /** So no run of up to `8 * bytes - 1` insertions is stopped. */
  lemma ShortRun(bytes: nat, stored: bool, ops: seq<Op>)
    requires |ops| <= 8 * bytes - 1
    requires (forall n :: 0 <= n < |ops| ==> ops[n].Insert?) || (stored && Repeats({}, ops) == 0)
    ensures Unstoppable(bytes, stored, ops)
  {
    forall n | 0 <= n < |ops|
      ensures |AfterAll({}, ops[..n])| <= 8 * bytes - 2
    {
      AfterAllSize({}, ops[..n]);
    }
  }

  lemma StopPossible(b: Start, ops: seq<Op>, n: nat, stop: Rc)
    requires n < |ops| && b.steady && b.pins == multiset{0} && IsStop(stop) && Cause(b, {}, ops, n, stop)
    ensures !Unstoppable(b.bytes, b.stored, ops)
  {
    RepeatsGrow({}, ops, n);
  }

  method NewTree(c: Cfg, bytes: nat, stored: bool) returns (tree: BplusTreeHandler)
    requires c.Ok() && bytes >= 1
    ensures fresh(tree) && fresh(tree.pool) && tree.Valid() && StartOf(tree) == NewFile(c, bytes, stored)
    ensures tree.S() == St(map[], -1, map[]) && Contents(tree.S()) == {}
  {
    var pool := new FileBufferPool.Create(bytes, stored);
    tree := new BplusTreeHandler.Create(c, pool);
  }

  /** A run on a new index file starts from the empty set, with only the file header pinned. */
  method RunFromEmpty(c: Cfg, bytes: nat, stored: bool, ops: seq<Op>)
    returns (tree: BplusTreeHandler, rcs: seq<Rc>, stop: Rc, ghost trace: seq<St>)
    requires c.Ok() && bytes >= 1 && forall i :: 0 <= i < |ops| ==> InLimit(c, ops[i])
    ensures fresh(tree) && fresh(tree.pool) && tree.c == c
    ensures |rcs| <= |ops| && rcs == Answers({}, ops[..|rcs|])
    ensures Ends(NewFile(c, bytes, stored), trace, ops, |rcs|, stop) && trace[0] == St(map[], -1, map[])
    ensures |rcs| == |ops| ==> Reached(tree, NewFile(c, bytes, stored), trace, ops)
    ensures |rcs| < |ops| ==> Stuck(tree, ops[|rcs|], stop, trace[|rcs|], RoomAfter(NewFile(c, bytes, stored), trace, ops[..|rcs|]))
    ensures Contents(trace[|rcs|]) == AfterAll({}, ops[..|rcs|])
    ensures |rcs| == |ops| ==> tree.Valid() && tree.S() == trace[|rcs|]
    ensures Cause(NewFile(c, bytes, stored), {}, ops, |rcs|, stop)
    ensures Unstoppable(bytes, stored, ops) ==> |rcs| == |ops|
  {
    tree := NewTree(c, bytes, stored);
    rcs, stop, trace := Run(tree, ops);
    if |rcs| < |ops| {
      StopPossible(NewFile(c, bytes, stored), ops, |rcs|, stop);
    }
  }

  // ---- a deletion that fails ----

  /** A tree with one entry is one leaf, and deleting the entry disposes of it. */
  lemma OneEntryTree(c: Cfg, s: St, e: Entry)
    requires Inv(c, s) && Contents(s) == {e}
    ensures s.pages.Keys == {s.root} && s.root >= 2 && Covers(s, s.root, e.key) && Drops(c, s, e.key) == {s.root}
    ensures HasKey(s, e.key)
  {
    OneEntryLeaf(c, s, e);
    assert e in Contents(s) && HasKey(s, e.key);
    var p :| p in s.pages && s.pages[p].Leaf? && e in s.pages[p].entries;
    assert p == s.root && LeafAt(s.pages[p].entries, s.g[p].lo, s.g[p].hi);
    DropsOf(c, s, p, e.key);
  }

  lemma OneEntryLeaf(c: Cfg, s: St, e: Entry)
    requires Inv(c, s) && Contents(s) == {e}
    ensures s.root != -1 && s.pages[s.root].Leaf? && s.pages.Keys == {s.root} && |s.pages[s.root].entries| == 1
  {
    assert e in Contents(s);
    RootIsLeaf(c, s);
    var es := s.pages[s.root].entries;
    assert SizeOk(c, s.pages[s.root], true) && LeafAt(es, s.g[s.root].lo, s.g[s.root].hi);
    DistinctCount(es);
    assert (set x | x in es) == Contents(s) by {
      assert forall x :: x in es ==> x in Contents(s);
    }
  }

  /** A tree with fewer than four entries is one leaf. */
  lemma RootIsLeaf(c: Cfg, s: St)
    requires Inv(c, s) && s.root != -1 && |Contents(s)| < 4
    ensures s.pages[s.root].Leaf? && s.pages.Keys == {s.root}
  {
    if s.g[s.root].ht >= 1 {
      MinimumSize(c, s);
      AtLeastFour(c, s.g[s.root].ht - 1);
    } else {
      assert forall p :: p in s.pages ==> p == s.root;
    }
  }

  lemma AtLeastFour(c: Cfg, h: nat)
    requires c.Ok()
    ensures 2 * (Pow(c.internalMax / 2, h) * (c.leafMax / 2)) >= 4
  {
    PowNotZero(c.internalMax / 2, h);
    assert Pow(c.internalMax / 2, h) * (c.leafMax / 2) >= 1 * (c.leafMax / 2);
  }

  /** If the leaf of a tree with one entry is pinned, deleting the entry disposes of a pinned page. */
  lemma DropsPinned(c: Cfg, s: St, e: Entry, pins: multiset<int>)
    requires Inv(c, s) && Contents(s) == {e} && exists leaf :: Covers(s, leaf, e.key) && pins[leaf] > 0
    ensures HasKey(s, e.key) && !Unheld(pins, Drops(c, s, e.key))
  {
    OneEntryTree(c, s, e);
    assert e in Contents(s);
  }

  /** An index with one entry: a leaf, which deleting the entry disposes of. */
  method OneEntry(c: Cfg, bytes: nat, stored: bool, e: Entry) returns (tree: BplusTreeHandler, rc: Rc)
    requires c.Ok() && bytes >= 1 && 0 <= e.key < c.limit
    ensures fresh(tree) && fresh(tree.pool) && tree.Valid() && tree.c == c && tree.pool.stored == stored
    ensures rc == Success && Contents(tree.S()) == {e} && HasKey(tree.S(), e.key) && tree.pool.pins == multiset{0}
    ensures Drops(c, tree.S(), e.key) == {tree.root} && tree.root >= 2
  {
    tree := NewTree(c, bytes, stored);
    RoomIs(tree);
    rc := tree.InsertEntry(e);
    OneEntryTree(c, tree.S(), e);
  }

  /** Inserting an entry twice and then deleting it fails on every new index file: the refused second
      insertion leaves the leaf pinned that the deletion disposes of. */
  method RepeatedThenDeleted(c: Cfg, bytes: nat, stored: bool, e: Entry) returns (rcs: seq<Rc>)
    requires c.Ok() && bytes >= 1 && 0 <= e.key < c.limit
    ensures rcs == [Success, DuplicateKey, AssertionFailed]
  {
    var tree, first := OneEntry(c, bytes, stored, e);
    var second := tree.InsertEntry(e);
    DropsPinned(c, tree.S(), e, tree.pool.pins);
    var third := tree.DeleteEntry(e.key);
    rcs := [first, second, third];
  }

  // ---- an insertion that fails ----

  lemma EmptyTree(c: Cfg, s: St)
    requires Inv(c, s) && Contents(s) == {}
    ensures s.root == -1
  {
    PagesBound(c, s);
  }

  /** Inserting an entry, deleting it and inserting another fails on every new index file whose pages cannot
      be read once they have been given back, as no page is ever written to the file. */
  method InsertedAgain(c: Cfg, bytes: nat, e: Entry, f: Entry) returns (rcs: seq<Rc>)
    requires c.Ok() && bytes >= 1 && 0 <= e.key < c.limit && 0 <= f.key < c.limit
    ensures rcs == [Success, Success, IoErrRead]
  {
    var tree, first := OneEntry(c, bytes, false, e);
    var second := tree.DeleteEntry(e.key);
    EmptyTree(c, tree.S());
    var third := tree.InsertEntry(f);
    rcs := [first, second, third];
  }
}
