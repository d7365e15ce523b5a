/** Searching inside one node. */
module BPlusSearch {
  import opened BPlusState

  ghost predicate Ascending(ks: seq<int>) {
    forall i, j :: 0 <= i < j < |ks| ==> ks[i] < ks[j]
  }

  /** All these ranks can be compared with `key`. */
  ghost predicate Comparable(c: Cfg, ks: seq<int>, key: int) {
    c.Ok() && 0 <= key < c.limit && forall i :: 0 <= i < |ks| ==> 0 <= ks[i] < c.limit
  }

  /** Binary search for the first key that is not below `key`. */
  method LowerBound(c: Cfg, ks: seq<int>, key: int) returns (first: int, found: bool)
    requires Ascending(ks) && Comparable(c, ks, key)
    ensures 0 <= first <= |ks|
    ensures forall i :: 0 <= i < first ==> ks[i] < key
    ensures forall i :: first <= i < |ks| ==> key <= ks[i]
    ensures found <==> key in ks
    ensures found ==> first < |ks| && ks[first] == key
  {
    first, found := 0, false;
    var count := |ks|;
    while count > 0
      invariant 0 <= first <= first + count <= |ks|
      invariant forall i :: 0 <= i < first ==> ks[i] < key
      invariant forall i :: first + count <= i < |ks| ==> key < ks[i]
      decreases count
    {
      var step := count / 2;
      var iter := first + step;
      var result := c.cmp(ks[iter], key);
      if result == 0 {
        first, found := iter, true;
        break;
      }
      if result < 0 {
        first := iter + 1;
        count := count - (step + 1);
      } else {
        count := step;
      }
    }
  }

  function EntryKeys(es: seq<Entry>): (ks: seq<int>)
    ensures |ks| == |es| && forall i :: 0 <= i < |es| ==> ks[i] == es[i].key
  {
    seq(|es|, i requires 0 <= i < |es| => es[i].key)
  }

  function KidKeys(ks: seq<Kid>): (r: seq<int>)
    ensures |r| == |ks| && forall i :: 0 <= i < |ks| ==> r[i] == ks[i].key
  {
    seq(|ks|, i requires 0 <= i < |ks| => ks[i].key)
  }

  /** Entries are sorted, by ranks the comparator knows. */
  ghost predicate KeysIn(c: Cfg, es: seq<Entry>) {
    c.Ok() && Sorted(es) && forall i :: 0 <= i < |es| ==> 0 <= es[i].key < c.limit
  }

  /** The slot at which `key` is or belongs in a leaf. */
  method LeafLookup(c: Cfg, es: seq<Entry>, key: int) returns (pos: int, found: bool)
    requires KeysIn(c, es) && 0 <= key < c.limit
    ensures 0 <= pos <= |es|
    ensures forall i :: 0 <= i < pos ==> es[i].key < key
    ensures forall i :: pos <= i < |es| ==> key <= es[i].key
    ensures found <==> exists e :: e in es && e.key == key
    ensures found ==> pos < |es| && es[pos].key == key
  {
    var ks := EntryKeys(es);
    pos, found := LowerBound(c, ks, key);
    assert forall i :: 0 <= i < |es| ==> ks[i] == es[i].key;
    if exists e :: e in es && e.key == key {
      var e :| e in es && e.key == key;
      var i :| 0 <= i < |es| && es[i] == e;
      assert ks[i] == key;
    }
    if found {
      assert es[pos] in es;
    }
  }

  /** Separators are sorted from slot 1 on, by ranks the comparator knows; slot 0 is ignored. */
  ghost predicate KeysFromOne(c: Cfg, ks: seq<Kid>) {
    && c.Ok() && (forall i :: 1 <= i < |ks| ==> 0 <= ks[i].key < c.limit)
    && forall i, j :: 1 <= i < j < |ks| ==> ks[i].key < ks[j].key
  }

  lemma KeysAfterFirst(ks: seq<Kid>)
    requires ks != []
    ensures forall i :: 1 <= i < |ks| ==> ks[i].key == KidKeys(ks)[1..][i - 1]
  {
  }

  /** The child whose interval holds `key`, and the slot at which a child starting at `key`
      would be inserted, which is never slot 0. */
  method InternalLookup(c: Cfg, ks: seq<Kid>, key: int) returns (child: int, pos: int)
    requires KeysFromOne(c, ks) && 0 <= key < c.limit
    ensures ks == [] ==> child == 0 && pos == 1
    ensures ks != [] ==>
      && 0 <= child < |ks|
      && (forall i :: 1 <= i <= child ==> ks[i].key <= key) && (forall i :: child < i < |ks| ==> key < ks[i].key)
    ensures ks != [] ==>
      && 1 <= pos <= |ks|
      && (forall i :: 1 <= i < pos ==> ks[i].key < key) && (forall i :: pos <= i < |ks| ==> key <= ks[i].key)
  {
    if |ks| == 0 {
      return 0, 1;
    }
    var keys := KidKeys(ks)[1..];
    var first, found := LowerBound(c, keys, key);
    KeysAfterFirst(ks);
    pos := first + 1;
    if pos >= |ks| || c.cmp(key, ks[pos].key) < 0 {
      child := pos - 1;
    } else {
      child := pos;
    }
  }
}
