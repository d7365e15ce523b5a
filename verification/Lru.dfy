/** `LruCache`: a hash set of nodes on a doubly linked list, most recently used first. */
module Lru {
  import opened Wrappers

  // ---- the abstract cache: a list of items with distinct keys ----

  datatype Item<K, V> = Item(key: K, value: V)

  function Without<K(==), V>(items: seq<Item<K, V>>, key: K): seq<Item<K, V>> {
    if items == [] then []
    else if items[|items| - 1].key == key then Without(items[..|items| - 1], key)
    else Without(items[..|items| - 1], key) + [items[|items| - 1]]
  }

  ghost predicate Distinct<K, V>(items: seq<Item<K, V>>) {
    forall i, j :: 0 <= i < j < |items| ==> items[i].key != items[j].key
  }

  lemma {:induction false} WithoutAbsent<K, V>(items: seq<Item<K, V>>, key: K)
    requires forall i :: 0 <= i < |items| ==> items[i].key != key
    ensures Without(items, key) == items
  {
    if items != [] {
      WithoutAbsent(items[..|items| - 1], key);
    }
  }

  /** Dropping a key drops the one item that has it and keeps the order of the others. */
  lemma {:induction false} WithoutAt<K, V>(items: seq<Item<K, V>>, k: int)
    requires Distinct(items) && 0 <= k < |items|
    ensures Without(items, items[k].key) == items[..k] + items[k + 1..]
  {
    var n := |items| - 1;
    if k == n {
      WithoutAbsent(items[..n], items[k].key);
      assert items[k + 1..] == [];
    } else {
      WithoutAt(items[..n], k);
      assert items[..n][..k] == items[..k] && items[..n][k + 1..] + [items[n]] == items[k + 1..];
    }
  }

  lemma {:induction false} WithoutIn<K, V>(items: seq<Item<K, V>>, key: K, x: Item<K, V>)
    ensures x in Without(items, key) <==> x in items && x.key != key
  {
    if items != [] {
      var n := |items| - 1;
      WithoutIn(items[..n], key, x);
      assert items == items[..n] + [items[n]];
    }
  }

  /** After any operation the keys are still distinct. */
  lemma {:induction false} WithoutDistinct<K, V>(items: seq<Item<K, V>>, key: K)
    requires Distinct(items)
    ensures Distinct(Without(items, key))
  {
    if items != [] {
      var n := |items| - 1;
      var rest := Without(items[..n], key);
      WithoutDistinct(items[..n], key);
      forall i | 0 <= i < |rest|
        ensures rest[i].key != items[n].key
      {
        WithoutIn(items[..n], key, rest[i]);
      }
    }
  }

  // ---- nodes ----

  class ListNode<K, V> {
    const key: K
    var value: V
    var prev: ListNode?<K, V>
    var next: ListNode?<K, V>

    constructor (k: K, v: V)
      ensures key == k && value == v && prev == null && next == null
    {
      key, value, prev, next := k, v, null, null;
    }
  }

  /** The node at position `i`, or null outside the list. */
  function NodeAt<K, V>(nodes: seq<ListNode<K, V>>, i: int): ListNode?<K, V> {
    if 0 <= i < |nodes| then nodes[i] else null
  }

  /** The pointers of the node at position `i` lead to its neighbours. */
  ghost predicate LinkAt<K, V>(nodes: seq<ListNode<K, V>>, i: int)
    requires 0 <= i < |nodes|
    reads nodes[i]
  {
    nodes[i].prev == NodeAt(nodes, i - 1) && nodes[i].next == NodeAt(nodes, i + 1)
  }

  class LruCache<K(==), V> {
    var searcher: map<K, ListNode<K, V>>
    var front: ListNode?<K, V>
    var tail: ListNode?<K, V>
    ghost var nodes: seq<ListNode<K, V>>  // front to tail
    ghost var repr: set<ListNode<K, V>>   // every node ever put in

    /** The pointers form one list, forward and backward. */
    ghost predicate Linked()
      reads this, nodes
    {
      && front == NodeAt(nodes, 0) && tail == NodeAt(nodes, |nodes| - 1)
      && (forall i, j :: 0 <= i < j < |nodes| ==> nodes[i] != nodes[j])
      && (forall i :: 0 <= i < |nodes| ==> LinkAt(nodes, i))
      && (forall i :: 0 <= i < |nodes| ==> nodes[i] in repr)
    }

    /** The hash set holds exactly the nodes of the list, and keys are distinct. */
    ghost predicate Indexed()
      reads this
    {
      && (forall n :: n in nodes ==> n.key in searcher && searcher[n.key] == n)
      && (forall k :: k in searcher ==> searcher[k] in nodes && searcher[k].key == k)
    }

    ghost predicate Valid()
      reads this, nodes
    {
      Linked() && Indexed()
    }

    ghost function Items(): seq<Item<K, V>>
      reads this, nodes
    {
      seq(|nodes|, i requires 0 <= i < |nodes| reads this, nodes => Item(nodes[i].key, nodes[i].value))
    }

    constructor ()
      ensures Valid() && nodes == [] && Items() == [] && repr == {}
    {
      searcher, front, tail, nodes, repr := map[], null, null, [], {};
    }

    lemma ItemsDistinct()
      requires Valid()
      ensures Distinct(Items())
    {
    }

    /** Makes `p` and `q` neighbours. */
    method Bypass(p: ListNode?<K, V>, q: ListNode?<K, V>)
      requires (p == null || p in nodes) && (q == null || q in nodes) && forall n :: n in nodes ==> n in repr
      modifies repr
      ensures forall n :: n in nodes ==> n.next == if n == p then q else old(n.next)
      ensures forall n :: n in nodes ==> n.prev == if n == q then p else old(n.prev)
      ensures forall n :: n in nodes ==> n.value == old(n.value)
    {
      if p != null {
        p.next := q;
      }
      if q != null {
        q.prev := p;
      }
    }

    /** Takes a node out of the list. */
    method Unlink(node: ListNode<K, V>, ghost k: int)
      requires Linked() && 0 <= k < |nodes| && nodes[k] == node
      modifies `front, `tail, `nodes, repr
      ensures Linked() && Removed(old(nodes), k, nodes)
      ensures forall n :: n in old(nodes) ==> n.value == old(n.value)
    {
      ghost var was := nodes;
      assert LinkAt(nodes, k);
      var p, q := node.prev, node.next;
      Bypass(p, q);
      if front == node {
        front := q;
      }
      if tail == node {
        tail := p;
      }
      nodes := Removing(was, k);
      forall i | 0 <= i < |nodes|
        ensures LinkAt(nodes, i)
      {
        ghost var j := if i < k then i else i + 1;
        assert old(LinkAt(was, j)) && nodes[i] == was[j];
      }
    }

    /** Puts a node that is not in the list at its front. */
    method PushFront(node: ListNode<K, V>)
      requires Linked() && node !in nodes
      modifies `front, `tail, `nodes, `repr, repr, node
      ensures Linked() && nodes == [node] + old(nodes) && repr == old(repr) + {node}
      ensures forall n :: n in nodes ==> n.value == old(n.value)
    {
      if tail == null {
        tail := node;
      }
      node.prev := null;
      node.next := front;
      if front != null {
        front.prev := node;
      }
      front := node;
      nodes := [node] + nodes;
      repr := repr + {node};
      forall i | 0 <= i < |nodes|
        ensures LinkAt(nodes, i)
      {
        assert i > 0 ==> old(LinkAt(nodes, i - 1));
      }
    }

    /** `lru_touch`: moves a node to the front. */
    method Touch(node: ListNode<K, V>, ghost k: int)
      requires Valid() && 0 <= k < |nodes| && nodes[k] == node
      modifies this, repr
      ensures Valid() && nodes == [node] + (old(nodes)[..k] + old(nodes)[k + 1..]) && searcher == old(searcher) && repr == old(repr)
      ensures forall n :: n in nodes ==> n in old(nodes) && n.value == old(n.value)
    {
      assert LinkAt(nodes, k);
      if node.prev == null {
        assert nodes == [node] + (nodes[..k] + nodes[k + 1..]);
        return;
      }
      Unlink(node, k);
      PushFront(node);
      SameNodes(old(nodes), k);
    }

    ghost predicate HasKey(key: K)
      reads this, nodes
    {
      exists x :: x in Items() && x.key == key
    }

    /** The hash set finds a key exactly when an item has it. */
    lemma Finds(key: K) returns (k: int)
      requires Valid()
      ensures key in searcher <==> HasKey(key)
      ensures key in searcher ==> 0 <= k < |nodes| && nodes[k] == searcher[key] && Items()[k] == Item(key, nodes[k].value)
      ensures key !in searcher ==> Without(Items(), key) == Items()
    {
      k := 0;
      if key in searcher {
        k :| 0 <= k < |nodes| && nodes[k] == searcher[key];
        assert Items()[k] in Items();
      } else {
        forall i | 0 <= i < |Items()|
          ensures Items()[i].key != key
        {
          assert nodes[i] in nodes;
        }
        WithoutAbsent(Items(), key);
      }
    }

    /** `get`: an item that is found moves to the front. */
    method Get(key: K) returns (r: Option<V>)
      requires Valid()
      modifies this, repr
      ensures Valid() && Items() == if r.None? then old(Items()) else [Item(key, r.value)] + Without(old(Items()), key)
      ensures r.Some? <==> old(HasKey(key))
      ensures r.Some? ==> Item(key, r.value) in old(Items())
      ensures repr == old(repr)
    {
      ghost var k := Finds(key);
      if key !in searcher {
        return None;
      }
      var node := searcher[key];
      ghost var items := Items();
      ItemsDistinct();
      WithoutAt(items, k);
      Touch(node, k);
      SameNodes(old(nodes), k);
      MovedItems(old(nodes), nodes, k, items, Items());
      r := Some(node.value);
    }

    method SetValue(node: ListNode<K, V>, value: V, ghost k: int)
      requires Valid() && 0 <= k < |nodes| && nodes[k] == node
      modifies node`value
      ensures Valid() && Items() == old(Items())[k := Item(node.key, value)]
    {
      node.value := value;
      forall i | 0 <= i < |nodes|
        ensures LinkAt(nodes, i)
      {
        assert old(LinkAt(nodes, i));
      }
    }

    /** `put` of a key that is present. */
    method Replace(key: K, value: V)
      requires Valid() && key in searcher
      modifies this, repr
      ensures Valid() && Items() == [Item(key, value)] + Without(old(Items()), key) && repr == old(repr)
    {
      ghost var k := Finds(key);
      ghost var items := Items();
      var node := searcher[key];
      ItemsDistinct();
      WithoutAt(items, k);
      SetValue(node, value, k);
      ghost var now := Items();
      SameNodes(nodes, k);
      Touch(node, k);
      MovedItems(old(nodes), nodes, k, now, Items());
    }

    /** `put`: the item is at the front afterwards, whether it is new or not. */
    method Put(key: K, value: V)
      requires Valid()
      modifies this, repr
      ensures Valid() && Items() == [Item(key, value)] + Without(old(Items()), key)
      ensures old(repr) <= repr && fresh(repr - old(repr))
    {
      if key in searcher {
        Replace(key, value);
        return;
      }
      ghost var k := Finds(key);
      Insert(key, value);
    }

    /** The branch of `put` for a key that is not there. */
    method Insert(key: K, value: V)
      requires Valid() && key !in searcher
      modifies this, repr
      ensures Valid() && Items() == [Item(key, value)] + old(Items())
      ensures old(repr) <= repr && fresh(repr - old(repr))
    {
      ghost var items := Items();
      var node := new ListNode(key, value);
      Push(node);
      assert Items() == [Item(key, value)] + items;
    }

    /** `lru_push`: a new node at the front. */
    method Push(node: ListNode<K, V>)
      requires Valid() && node !in nodes && node.key !in searcher
      modifies this, repr, node
      ensures Valid() && nodes == [node] + old(nodes) && repr == old(repr) + {node}
      ensures forall n :: n in nodes ==> n.value == old(n.value)
    {
      PushFront(node);
      searcher := searcher[node.key := node];
    }

    /** `remove`: the item is gone, the others keep their order. */
    method Remove(key: K)
      requires Valid()
      modifies this, repr
      ensures Valid() && Items() == Without(old(Items()), key)
      ensures repr == old(repr)
    {
      ghost var k := Finds(key);
      if key !in searcher {
        return;
      }
      ghost var items := Items();
      ItemsDistinct();
      WithoutAt(items, k);
      Erase(searcher[key], k);
      RemovedItems(old(nodes), nodes, k, items, Items());
    }

    /** `lru_remove`: off the list and out of the hash set. */
    method Erase(node: ListNode<K, V>, ghost k: int)
      requires Valid() && 0 <= k < |nodes| && nodes[k] == node
      modifies this, repr
      ensures Valid() && Removed(old(nodes), k, nodes) && repr == old(repr)
      ensures forall n :: n in nodes ==> n in old(nodes) && n.value == old(n.value)
    {
      RemovedNodes(nodes, k);
      Unlink(node, k);
      searcher := map x | x in searcher && x != node.key :: searcher[x];
    }

    /** `foreach`: visits items from the front until the callback says stop. */
    method ForEach(f: (K, V) -> bool) returns (visited: seq<Item<K, V>>)
      requires Valid()
      ensures visited <= Items()
      ensures forall i :: 0 <= i < |visited| - 1 ==> f(visited[i].key, visited[i].value)
      ensures visited == Items() || (visited != [] && !f(visited[|visited| - 1].key, visited[|visited| - 1].value))
    {
      visited := [];
      var node := front;
      ghost var items := Items();
      while node != null
        invariant visited <= items && node == NodeAt(nodes, |visited|)
        invariant forall i :: 0 <= i < |visited| ==> f(visited[i].key, visited[i].value)
        decreases |nodes| - |visited|
      {
        assert LinkAt(nodes, |visited|);
        visited := visited + [Item(node.key, node.value)];
        if !f(node.key, node.value) {
          break;
        }
        node := node.next;
      }
    }

    /** `foreach_reverse`: the same from the tail, in the reverse of the forward order. */
    method ForEachReverse(f: (K, V) -> bool) returns (visited: seq<Item<K, V>>)
      requires Valid()
      ensures |visited| <= |Items()| && forall i :: 0 <= i < |visited| ==> visited[i] == Items()[|Items()| - 1 - i]
      ensures forall i :: 0 <= i < |visited| - 1 ==> f(visited[i].key, visited[i].value)
      ensures |visited| == |Items()| || (visited != [] && !f(visited[|visited| - 1].key, visited[|visited| - 1].value))
    {
      visited := [];
      var node := tail;
      while node != null
        invariant |visited| <= |nodes| && node == NodeAt(nodes, |nodes| - 1 - |visited|)
        invariant forall i :: 0 <= i < |visited| ==> visited[i] == Items()[|nodes| - 1 - i]
        invariant forall i :: 0 <= i < |visited| ==> f(visited[i].key, visited[i].value)
        decreases |nodes| - |visited|
      {
        assert LinkAt(nodes, |nodes| - 1 - |visited|);
        visited := visited + [Item(node.key, node.value)];
        if !f(node.key, node.value) {
          break;
        }
        node := node.prev;
      }
    }

    method Count() returns (n: nat)
      requires Valid()
      ensures n == |Items()|
    {
      n := |searcher|;
      OneEach(nodes, searcher);
    }
  }

  /** `now` is `was` without the node at position `k`. */
  ghost predicate Removed<K, V>(was: seq<ListNode<K, V>>, k: int, now: seq<ListNode<K, V>>)
    requires 0 <= k < |was|
  {
    |now| == |was| - 1 && forall i :: 0 <= i < |now| ==> now[i] == was[if i < k then i else i + 1]
  }

  lemma Removing<K, V>(was: seq<ListNode<K, V>>, k: int) returns (now: seq<ListNode<K, V>>)
    requires 0 <= k < |was|
    ensures Removed(was, k, now)
  {
    now := was[..k] + was[k + 1..];
  }

  lemma SameNodes<K, V>(was: seq<ListNode<K, V>>, k: int)
    requires 0 <= k < |was|
    ensures forall n :: n in [was[k]] + (was[..k] + was[k + 1..]) <==> n in was
    ensures forall n :: n in was && n != was[k] ==> n in was[..k] + was[k + 1..]
  {
    assert was == was[..k] + [was[k]] + was[k + 1..];
  }

  /** Moving a node moves its item. */
  lemma MovedItems<K, V>(was: seq<ListNode<K, V>>, nodes: seq<ListNode<K, V>>, k: int, before: seq<Item<K, V>>, after: seq<Item<K, V>>)
    requires 0 <= k < |was| && nodes == [was[k]] + (was[..k] + was[k + 1..]) && |before| == |was| && |after| == |nodes|
    requires forall i, j :: 0 <= i < |was| && 0 <= j < |nodes| && was[i] == nodes[j] ==> before[i] == after[j]
    ensures after == [before[k]] + (before[..k] + before[k + 1..])
  {
    assert forall j :: 0 <= j < |nodes| ==> nodes[j] == was[if j == 0 then k else if j <= k then j - 1 else j];
  }

  lemma RemovedNodes<K, V>(was: seq<ListNode<K, V>>, k: int)
    requires 0 <= k < |was| && forall i, j :: 0 <= i < j < |was| ==> was[i] != was[j]
    ensures forall now, n :: Removed(was, k, now) ==> (n in now <==> n in was && n != was[k])
  {
    forall now, n | Removed(was, k, now) && n in was && n != was[k]
      ensures n in now
    {
      var j :| 0 <= j < |was| && was[j] == n;
      assert now[if j < k then j else j - 1] == n;
    }
  }

  lemma RemovedItems<K, V>(was: seq<ListNode<K, V>>, nodes: seq<ListNode<K, V>>, k: int, before: seq<Item<K, V>>, after: seq<Item<K, V>>)
    requires 0 <= k < |was| && Removed(was, k, nodes) && |before| == |was| && |after| == |nodes|
    requires forall i, j :: 0 <= i < |was| && 0 <= j < |nodes| && was[i] == nodes[j] ==> before[i] == after[j]
    ensures after == before[..k] + before[k + 1..]
  {
  }

  /** As many keys as nodes. */
  lemma {:induction false} OneEach<K, V>(nodes: seq<ListNode<K, V>>, searcher: map<K, ListNode<K, V>>)
    requires forall i, j :: 0 <= i < j < |nodes| ==> nodes[i] != nodes[j]
    requires forall n :: n in nodes ==> n.key in searcher && searcher[n.key] == n
    requires forall k :: k in searcher ==> searcher[k] in nodes && searcher[k].key == k
    ensures |searcher| == |nodes|
  {
    if nodes == [] {
      assert searcher == map[];
    } else {
      var last := nodes[|nodes| - 1];
      var fewer := map k | k in searcher && k != last.key :: searcher[k];
      assert nodes == nodes[..|nodes| - 1] + [last];
      OneEach(nodes[..|nodes| - 1], fewer);
      assert fewer.Keys == searcher.Keys - {last.key};
    }
  }
}
