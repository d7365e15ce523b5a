/** Page frames: a memory pool that owns them and a frame manager that hands them out by page. */
module Frames {
  import opened Wrappers
  import opened Lru

  datatype FrameId = FrameId(file: int, page: int)

  class Frame {
    var pinCount: int

    constructor ()
      ensures pinCount == 0
    {
      pinCount := 0;
    }
  }

  /** Every frame is either used or on the free list, once. */
  ghost predicate Partition(used: set<Frame>, frees: seq<Frame>, all: set<Frame>) {
    multiset(used) + multiset(frees) == multiset(all)
  }

  lemma PartitionSize(used: set<Frame>, frees: seq<Frame>, all: set<Frame>)
    requires Partition(used, frees, all)
    ensures |all| == |used| + |frees|
  {
    assert |multiset(used) + multiset(frees)| == |multiset(all)|;
  }

  lemma MoreFrames(used: set<Frame>, frees: seq<Frame>, all: set<Frame>, pool: seq<Frame>, added: set<Frame>)
    requires Partition(used, frees, all) && multiset(pool) == multiset(added) && added !! all
    ensures Partition(used, frees + pool, all + added) && |all + added| == |all| + |pool|
  {
    assert multiset(all + added) == multiset(all) + multiset(added);
    assert |multiset(pool)| == |multiset(added)|;
  }

  lemma TakeFirst(used: set<Frame>, frees: seq<Frame>, all: set<Frame>)
    requires Partition(used, frees, all) && frees != []
    ensures Partition(used + {frees[0]}, frees[1..], all) && frees[0] in all && frees[0] !in used
  {
    var f := frees[0];
    assert frees == [f] + frees[1..];
    assert multiset(frees) == multiset{f} + multiset(frees[1..]);
    assert multiset(all)[f] == multiset(used)[f] + multiset(frees)[f];
  }

  lemma GiveBack(used: set<Frame>, frees: seq<Frame>, all: set<Frame>, f: Frame)
    requires Partition(used, frees, all) && f in used
    ensures Partition(used - {f}, frees + [f], all)
  {
  }

  /** `MemPoolSimple`. */
  class MemPoolSimple {
    var dynamic: bool
    var itemNumPerPool: int
    var size: int
    var pools: seq<seq<Frame>>
    var used: set<Frame>
    var frees: seq<Frame>
    ghost var all: set<Frame>  // the frames of all pools

    /** The used and the free frames are a partition of the frames of the pools. */
    ghost predicate Valid()
      reads this
    {
      && Partition(used, frees, all) && size == |all|
      && (pools == [] <==> all == {})
      && (itemNumPerPool > 0 || pools == [])
    }

    constructor ()
      ensures Valid() && all == {} && pools == [] && !dynamic && used == {} && frees == []
    {
      dynamic, itemNumPerPool, size, pools, used, frees, all := false, 0, 0, [], {}, [], {};
    }

    /** `new T[n]`. */
    method NewFrames(n: nat) returns (pool: seq<Frame>, ghost added: set<Frame>)
      ensures |pool| == n && multiset(pool) == multiset(added)
      ensures fresh(added) && forall f :: f in added ==> f.pinCount == 0
    {
      pool, added := [], {};
      while |pool| < n
        invariant |pool| <= n && multiset(pool) == multiset(added)
        invariant fresh(added) && forall f :: f in added ==> f.pinCount == 0
      {
        var f := new Frame();
        pool, added := pool + [f], added + {f};
      }
    }

    /** `extend`. */
    method Extend() returns (ok: bool, ghost added: set<Frame>)
      requires Valid() && itemNumPerPool > 0
      modifies `size, `pools, `frees, `all
      ensures Valid() && ok == dynamic && all == old(all) + added && added !! old(all)
      ensures !ok ==> added == {} && frees == old(frees) && size == old(size)
      ensures ok ==> pools != [] && |frees| == |old(frees)| + itemNumPerPool && size == old(size) + itemNumPerPool
      ensures fresh(added) && forall f :: f in added ==> f.pinCount == 0
    {
      if !dynamic {
        return false, {};
      }
      var pool;
      pool, added := NewFrames(itemNumPerPool);
      MoreFrames(used, frees, all, pool, added);
      assert pool[0] in multiset(pool);
      pools := pools + [pool];
      size := size + itemNumPerPool;
      frees := frees + pool;
      all := all + added;
      ok := true;
    }

    /** `init`: pools for `poolNum` times `items` frames. */
    method Init(dyn: bool, poolNum: int, items: int) returns (rc: int)
      requires Valid()
      modifies this
      ensures Valid() && used == old(used) && old(all) <= all
      ensures rc == if old(pools) == [] && (poolNum <= 0 || items <= 0) then -1 else 0
      ensures old(pools) == [] && rc == 0 ==> size == poolNum * items && dynamic == dyn && used == {}
      ensures old(pools) != [] || rc != 0 ==> all == old(all) && frees == old(frees) && dynamic == old(dynamic)
      ensures fresh(all - old(all)) && forall f :: f in all - old(all) ==> f.pinCount == 0
    {
      if pools != [] {
        return 0;
      }
      if poolNum <= 0 || items <= 0 {
        return -1;
      }
      PartitionSize(used, frees, all);
      itemNumPerPool := items;
      dynamic := true;
      var i := 0;
      while i < poolNum
        invariant 0 <= i <= poolNum && Valid() && dynamic && itemNumPerPool == items && used == {} && size == i * items
        invariant fresh(all) && forall f :: f in all ==> f.pinCount == 0
      {
        var _, _ := Extend();
        i := i + 1;
      }
      dynamic := dyn;
      rc := 0;
    }

    /** `alloc`: the frame at the head of the free list; none only if the pool may not grow. */
    method Alloc() returns (r: Frame?)
      requires Valid() && (dynamic ==> itemNumPerPool > 0)
      modifies this
      ensures Valid() && dynamic == old(dynamic) && itemNumPerPool == old(itemNumPerPool) && old(all) <= all
      ensures r == null <==> old(frees) == [] && !dynamic
      ensures r == null ==> used == old(used) && frees == old(frees)
      ensures !dynamic ==> all == old(all)
      ensures r != null ==> r !in old(used) && used == old(used) + {r} && r in all
      ensures old(frees) != [] ==> r == old(frees)[0] && frees == old(frees)[1..] && all == old(all)
      ensures fresh(all - old(all)) && forall f :: f in all - old(all) ==> f.pinCount == 0
    {
      if frees == [] {
        if !dynamic {
          return null;
        }
        var ok, _ := Extend();
        if !ok {
          return null;
        }
      }
      r := TakeHead();
    }

    method TakeHead() returns (r: Frame)
      requires Valid() && frees != []
      modifies `frees, `used
      ensures Valid() && r == old(frees)[0] && frees == old(frees)[1..] && used == old(used) + {r} && r in all && r !in old(used)
    {
      TakeFirst(used, frees, all);
      r := frees[0];
      frees := frees[1..];
      used := used + {r};
    }

    /** `free`: a used frame goes to the end of the free list; any other is left alone. */
    method Free(f: Frame)
      requires Valid()
      modifies this
      ensures Valid() && all == old(all) && dynamic == old(dynamic) && itemNumPerPool == old(itemNumPerPool)
      ensures used == old(used) - {f} && frees == if f in old(used) then old(frees) + [f] else old(frees)
    {
      if f !in used {
        return;
      }
      GiveBack(used, frees, all, f);
      used := used - {f};
      frees := frees + [f];
    }
  }

  // ---- the frame manager ----

  ghost function Values(items: seq<Item<FrameId, Frame>>): seq<Frame> {
    seq(|items|, i requires 0 <= i < |items| => items[i].value)
  }

  /** The cached items and the used frames are in bijection: each used frame is the value of one item. */
  ghost predicate Matched(items: seq<Item<FrameId, Frame>>, used: set<Frame>) {
    multiset(Values(items)) == multiset(used)
  }

  lemma ValueUsed(items: seq<Item<FrameId, Frame>>, used: set<Frame>, x: Item<FrameId, Frame>)
    requires Matched(items, used) && x in items
    ensures x.value in used
  {
    var i :| 0 <= i < |items| && items[i] == x;
    assert Values(items)[i] in multiset(Values(items));
  }

  /** No frame is cached under two identifiers. */
  lemma OneFrameOneId(items: seq<Item<FrameId, Frame>>, used: set<Frame>, i: int, j: int)
    requires Matched(items, used) && 0 <= i < j < |items|
    ensures items[i].value != items[j].value
  {
    var vs := Values(items);
    assert vs == vs[..i] + [vs[i]] + vs[i + 1..j] + [vs[j]] + vs[j + 1..];
    assert multiset(vs)[vs[i]] <= 1;
  }

  lemma ValuesPlus(a: seq<Item<FrameId, Frame>>, b: seq<Item<FrameId, Frame>>)
    ensures Values(a + b) == Values(a) + Values(b)
  {
  }

  /** Dropping an item drops its frame. */
  lemma ValuesWithout(items: seq<Item<FrameId, Frame>>, x: Item<FrameId, Frame>)
    requires Distinct(items) && x in items
    ensures multiset(Values(items)) == multiset(Values(Without(items, x.key))) + multiset{x.value}
  {
    var k :| 0 <= k < |items| && items[k] == x;
    WithoutAt(items, k);
    ValuesPlus(items[..k], items[k + 1..]);
    assert Values(items) == Values(items[..k]) + [x.value] + Values(items[k + 1..]);
  }

  /** Moving an item to the front keeps the bijection; dropping it gives up its frame. */
  lemma MatchedWithout(items: seq<Item<FrameId, Frame>>, used: set<Frame>, x: Item<FrameId, Frame>)
    requires Matched(items, used) && Distinct(items) && x in items
    ensures Matched([x] + Without(items, x.key), used)
    ensures Matched(Without(items, x.key), used - {x.value})
  {
    ValuesWithout(items, x);
    ValueUsed(items, used, x);
    ValuesPlus([x], Without(items, x.key));
    assert Values([x]) == [x.value];
    assert multiset(used) - multiset{x.value} == multiset(used - {x.value});
  }

  lemma MatchedPlus(items: seq<Item<FrameId, Frame>>, used: set<Frame>, x: Item<FrameId, Frame>)
    requires Matched(items, used) && x.value !in used
    ensures Matched([x] + items, used + {x.value})
  {
    ValuesPlus([x], items);
    assert Values([x]) == [x.value];
  }

  class FrameManager {
    const frames: LruCache<FrameId, Frame>
    const allocator: MemPoolSimple

    /** Cache and pool agree. */
    ghost predicate Agree()
      reads this, frames, frames.nodes, allocator
    {
      frames.Valid() && allocator.Valid() && !allocator.dynamic && Matched(frames.Items(), allocator.used)
    }

    ghost predicate FreeUnpinned()
      reads this, allocator, allocator.frees
    {
      forall f :: f in allocator.frees ==> f.pinCount == 0
    }

    ghost predicate Valid()
      reads this, frames, frames.nodes, allocator, allocator.frees
    {
      Agree() && FreeUnpinned()
    }

    constructor ()
      ensures Valid() && frames.Items() == [] && fresh(frames) && fresh(allocator) && allocator.all == {}
    {
      frames := new LruCache();
      allocator := new MemPoolSimple();
      new;
      PartitionSize(allocator.used, allocator.frees, allocator.all);
    }

    /** `init`: a pool of frames that does not grow. */
    method Init(poolNum: int) returns (ok: bool)
      requires Valid()
      modifies allocator
      ensures Valid() && ok == (old(allocator.pools) != [] || poolNum > 0) && allocator.used == old(allocator.used)
      ensures old(allocator.pools) == [] && ok ==> allocator.size == poolNum * 128
      ensures fresh(allocator.all - old(allocator.all))
    {
      var rc := allocator.Init(false, poolNum, 128);
      ok := rc == 0;
      FreesIn(allocator.used, allocator.frees, allocator.all);
    }

    /** Looks the page up in the cache, which moves it to the front. */
    method Lookup(id: FrameId) returns (r: Option<Frame>)
      requires Agree()
      modifies frames, frames.repr
      ensures Agree() && (r.Some? <==> old(frames.HasKey(id)))
      ensures frames.Items() == if r.None? then old(frames.Items()) else [Item(id, r.value)] + Without(old(frames.Items()), id)
      ensures r.Some? ==> Item(id, r.value) in old(frames.Items()) && r.value in allocator.used
      ensures r.Some? ==> r.value in allocator.all && r.value !in allocator.frees
      ensures frames.repr == old(frames.repr)
      ensures forall f :: f in allocator.all ==> f.pinCount == old(f.pinCount)
      ensures FreeUnpinned() == old(FreeUnpinned())
    {
      ghost var items := frames.Items();
      frames.ItemsDistinct();
      r := frames.Get(id);
      if r.Some? {
        MatchedWithout(items, allocator.used, Item(id, r.value));
        ValueUsed(items, allocator.used, Item(id, r.value));
        UsedNotFree(allocator.used, allocator.frees, allocator.all, r.value);
      }
    }

    /** `pin` and `unpin`. */
    method Pin(f: Frame, n: int)
      requires Agree()
      modifies f`pinCount
      ensures Agree() && frames.Items() == old(frames.Items()) && f.pinCount == old(f.pinCount) + n
      ensures f !in allocator.frees ==> FreeUnpinned() == old(FreeUnpinned())
    {
      f.pinCount := f.pinCount + n;
    }

    /** `get_internal`: a cached frame moves to the front of the list and is pinned. */
    method Get(id: FrameId) returns (r: Option<Frame>)
      requires Valid()
      modifies frames, frames.repr, allocator.all
      ensures Valid() && (r.Some? <==> old(frames.HasKey(id)))
      ensures frames.Items() == if r.None? then old(frames.Items()) else [Item(id, r.value)] + Without(old(frames.Items()), id)
      ensures r.Some? ==> Item(id, r.value) in old(frames.Items()) && r.value in allocator.used
      ensures forall f :: f in allocator.all ==> f.pinCount == old(f.pinCount) + if r == Some(f) then 1 else 0
      ensures frames.repr == old(frames.repr)
    {
      r := Lookup(id);
      if r.Some? {
        Pin(r.value, 1);
      }
    }

    /** Caches a free frame under a page. */
    method Enter(id: FrameId) returns (r: Option<Frame>)
      requires Agree() && !frames.HasKey(id)
      modifies frames, frames.repr, allocator
      ensures Agree() && allocator.all == old(allocator.all)
      ensures r.None? <==> old(allocator.frees) == []
      ensures r.None? ==> frames.Items() == old(frames.Items()) && allocator.used == old(allocator.used) && allocator.frees == []
      ensures r.Some? ==>
        && r.value == old(allocator.frees)[0] && allocator.frees == old(allocator.frees)[1..]
        && frames.Items() == [Item(id, r.value)] + Without(old(frames.Items()), id)
        && allocator.used == old(allocator.used) + {r.value} && r.value !in old(allocator.used)
        && r.value in allocator.all && r.value !in allocator.frees
      ensures fresh(frames.repr - old(frames.repr))
    {
      ghost var items, used := frames.Items(), allocator.used;
      ghost var k := frames.Finds(id);
      var f := allocator.Alloc();
      if f == null {
        return None;
      }
      UsedNotFree(allocator.used, allocator.frees, allocator.all, f);
      Cache(id, f, items, used);
      r := Some(f);
    }

    /** Puts a frame that has just become used in the cache. */
    method Cache(id: FrameId, f: Frame, ghost items: seq<Item<FrameId, Frame>>, ghost used: set<Frame>)
      requires frames.Valid() && frames.Items() == items && Without(items, id) == items && Matched(items, used)
      requires allocator.Valid() && !allocator.dynamic && allocator.used == used + {f} && f !in used
      modifies frames, frames.repr
      ensures Agree() && frames.Items() == [Item(id, f)] + items
      ensures fresh(frames.repr - old(frames.repr))
    {
      MatchedPlus(items, used, Item(id, f));
      frames.Put(id, f);
    }

    /** A page that is not cached takes the first free frame, which nobody holds. */
    method AllocNew(id: FrameId) returns (r: Option<Frame>)
      requires Valid() && !frames.HasKey(id)
      modifies frames, frames.repr, allocator, allocator.all
      ensures Valid() && allocator.all == old(allocator.all)
      ensures r.None? <==> old(allocator.frees) == []
      ensures r.None? ==> frames.Items() == old(frames.Items()) && allocator.used == old(allocator.used)
      ensures r.Some? ==>
        && frames.Items() == [Item(id, r.value)] + Without(old(frames.Items()), id)
        && r.value !in old(allocator.used) && allocator.used == old(allocator.used) + {r.value} && r.value.pinCount == 1
      ensures forall f :: f in allocator.all ==> f.pinCount == old(f.pinCount) + if r == Some(f) then 1 else 0
    {
      ghost var frees := allocator.frees;
      r := Enter(id);
      if r.Some? {
        StillUnpinned(frees);
        Pin(r.value, 1);
      }
    }

    lemma JoinUnpinned(frees: seq<Frame>, f: Frame)
      requires allocator.frees == frees + [f] && f.pinCount == 0 && forall g :: g in frees ==> g.pinCount == 0
      ensures FreeUnpinned()
    {
    }

    lemma StillUnpinned(frees: seq<Frame>)
      requires frees != [] && allocator.frees == frees[1..] && forall f :: f in frees ==> f.pinCount == 0
      ensures FreeUnpinned() && frees[0].pinCount == 0
    {
      assert frees[0] in frees && forall f :: f in frees[1..] ==> f in frees;
    }

    /** `alloc`: the cached frame of the page, or a free one, which is then cached under the page.
        Without a free frame nothing changes. */
    method Alloc(id: FrameId) returns (r: Option<Frame>)
      requires Valid()
      modifies frames, frames.repr, allocator, allocator.all
      ensures Valid() && allocator.all == old(allocator.all)
      ensures r.None? <==> !old(frames.HasKey(id)) && old(allocator.frees) == []
      ensures r.None? ==> frames.Items() == old(frames.Items()) && allocator.used == old(allocator.used)
      ensures r.Some? ==> frames.Items() == [Item(id, r.value)] + Without(old(frames.Items()), id)
      ensures old(frames.HasKey(id)) ==>
        r.Some? && Item(id, r.value) in old(frames.Items()) && allocator.used == old(allocator.used)
      ensures r.Some? && !old(frames.HasKey(id)) ==>
        r.value !in old(allocator.used) && allocator.used == old(allocator.used) + {r.value} && r.value.pinCount == 1
      ensures forall f :: f in allocator.all ==> f.pinCount == old(f.pinCount) + if r == Some(f) then 1 else 0
    {
      r := Get(id);
      if r.Some? {
        return;
      }
      r := AllocNew(id);
    }

    /** Takes a page out of the cache and gives its frame back. */
    method Leave(id: FrameId, f: Frame)
      requires Agree() && Item(id, f) in frames.Items() && f in allocator.used
      modifies frames, frames.repr, allocator
      ensures Agree() && allocator.all == old(allocator.all) && allocator.used == old(allocator.used) - {f}
      ensures frames.Items() == Without(old(frames.Items()), id) && allocator.frees == old(allocator.frees) + [f]
    {
      ghost var items := frames.Items();
      frames.ItemsDistinct();
      MatchedWithout(items, allocator.used, Item(id, f));
      frames.Remove(id);
      allocator.Free(f);
    }

    /** The same after looking the page up, which moves it to the front first. */
    method Detach(id: FrameId, f: Frame)
      requires Agree() && Item(id, f) in frames.Items()
      modifies frames, frames.repr, allocator
      ensures Agree() && allocator.all == old(allocator.all) && allocator.used == old(allocator.used) - {f}
      ensures frames.Items() == Without(old(frames.Items()), id) && allocator.frees == old(allocator.frees) + [f]
      ensures f in allocator.all
    {
      ghost var items := frames.Items();
      frames.ItemsDistinct();
      var source := Lookup(id);
      SameItem(items, Item(id, f), source);
      DropAgain(items, Item(id, f));
      Leave(id, f);
    }

    /** `free_internal`. As the assertion there demands, the frame is the one cached for the page and
        only the caller holds it. */
    method Free(id: FrameId, f: Frame)
      requires Valid() && Item(id, f) in frames.Items() && f.pinCount == 1
      modifies frames, frames.repr, allocator, allocator.all, f
      ensures Valid() && allocator.all == old(allocator.all) && allocator.used == old(allocator.used) - {f}
      ensures frames.Items() == Without(old(frames.Items()), id) && allocator.frees == old(allocator.frees) + [f] && f.pinCount == 0
      ensures forall g :: g in allocator.all && g != f ==> g.pinCount == old(g.pinCount)
    {
      ghost var frees := allocator.frees;
      Pin(f, -1);
      assert forall g :: g in frees ==> g.pinCount == 0;
      Detach(id, f);
      JoinUnpinned(frees, f);
    }

    /** Pins every frame of a list, as often as it occurs. */
    method PinAll(list: seq<Frame>)
      requires Agree() && forall f :: f in list ==> f in allocator.all
      modifies allocator.all
      ensures Agree() && frames.Items() == old(frames.Items())
      ensures forall f :: f in allocator.all ==> f.pinCount == old(f.pinCount) + multiset(list)[f]
    {
      var i := 0;
      while i < |list|
        invariant 0 <= i <= |list| && Agree() && frames.Items() == old(frames.Items())
        invariant forall f :: f in allocator.all ==> f.pinCount == old(f.pinCount) + multiset(list[..i])[f]
      {
        assert list[..i + 1] == list[..i] + [list[i]];
        Pin(list[i], 1);
        i := i + 1;
      }
      assert list[..i] == list;
    }

    /** `find_list`: the frames of a file in list order, each pinned once more; the list stays as it is. */
    method FindList(file: int) returns (list: seq<Frame>, ghost places: seq<nat>)
      requires Valid()
      modifies allocator.all
      ensures Valid() && frames.Items() == old(frames.Items())
      ensures list == OfFile(frames.Items(), file) && ListedAt(frames.Items(), file, list, places)
      ensures forall f :: f in allocator.all ==> f.pinCount == old(f.pinCount) + multiset(list)[f]
    {
      var items := frames.ForEach((id, f) => true);
      list := Select(items, file);
      places := OfFileAt(items, file);
      FileUsed(items, file, allocator.used, allocator.frees, allocator.all);
      PinAll(list);
    }
  }

  /** The callback of `find_list` over the visited items. */
  method Select(items: seq<Item<FrameId, Frame>>, file: int) returns (list: seq<Frame>)
    ensures list == OfFile(items, file)
  {
    list := [];
    var i := 0;
    while i < |items|
      invariant 0 <= i <= |items| && list == OfFile(items[..i], file)
    {
      assert items[..i + 1][..i] == items[..i];
      if items[i].key.file == file {
        list := list + [items[i].value];
      }
      i := i + 1;
    }
    assert items[..i] == items;
  }

  /** `list` is what the items of one file hold, `places` being their positions in ascending order. */
  ghost predicate ListedAt(items: seq<Item<FrameId, Frame>>, file: int, list: seq<Frame>, places: seq<nat>) {
    && |places| == |list| && (forall i, j :: 0 <= i < j < |places| ==> places[i] < places[j])
    && (forall i :: 0 <= i < |places| ==>
      places[i] < |items| && items[places[i]].key.file == file && items[places[i]].value == list[i])
    && (forall x: nat :: x < |items| && items[x].key.file == file ==> x in places)
  }

  lemma {:induction false} OfFileAt(items: seq<Item<FrameId, Frame>>, file: int) returns (places: seq<nat>)
    ensures ListedAt(items, file, OfFile(items, file), places)
  {
    places := [];
    if items != [] {
      var n := |items| - 1;
      places := OfFileAt(items[..n], file);
      assert forall x: nat :: x < n ==> items[x] == items[..n][x];
      if items[n].key.file == file {
        places := places + [n];
      }
    }
  }

  lemma {:induction false} OfFileIn(items: seq<Item<FrameId, Frame>>, file: int, f: Frame)
    ensures f in OfFile(items, file) <==> exists x :: x in items && x.key.file == file && x.value == f
  {
    if items != [] {
      var n := |items| - 1;
      OfFileIn(items[..n], file, f);
      assert items == items[..n] + [items[n]];
    }
  }

  lemma FileUsed(items: seq<Item<FrameId, Frame>>, file: int, used: set<Frame>, frees: seq<Frame>, all: set<Frame>)
    requires Matched(items, used) && Partition(used, frees, all)
    ensures forall f :: f in OfFile(items, file) ==> f in all
    ensures forall f :: f in frees ==> f in all && multiset(OfFile(items, file))[f] == 0
  {
    forall f | f in OfFile(items, file)
      ensures f in all && f in used
    {
      OfFileIn(items, file, f);
      var x :| x in items && x.key.file == file && x.value == f;
      ValueUsed(items, used, x);
      UsedNotFree(used, frees, all, f);
    }
    NoFreeIn(OfFile(items, file), used, frees, all);
  }

  lemma NoFreeIn(list: seq<Frame>, used: set<Frame>, frees: seq<Frame>, all: set<Frame>)
    requires Partition(used, frees, all) && forall f :: f in list ==> f in used
    ensures forall f :: f in frees ==> f in all && multiset(list)[f] == 0
  {
    forall f | f in frees
      ensures f in all && multiset(list)[f] == 0
    {
      assert f in multiset(frees);
      assert multiset(all)[f] == multiset(used)[f] + multiset(frees)[f];
      assert f in list <==> f in multiset(list);
    }
  }

  /** The frames of one file, in list order. */
  function OfFile(items: seq<Item<FrameId, Frame>>, file: int): seq<Frame> {
    if items == [] then []
    else
      var n := |items| - 1;
      OfFile(items[..n], file) + if items[n].key.file == file then [items[n].value] else []
  }

  /** What the cache returns for a key is the value of its one item. */
  lemma SameItem(items: seq<Item<FrameId, Frame>>, x: Item<FrameId, Frame>, source: Option<Frame>)
    requires Distinct(items) && x in items && (source.Some? ==> Item(x.key, source.value) in items)
    ensures source.Some? ==> source.value == x.value
  {
    if source.Some? {
      var i :| 0 <= i < |items| && items[i] == x;
      var j :| 0 <= j < |items| && items[j] == Item(x.key, source.value);
      assert i < j || j < i || i == j;
    }
  }

  /** Touching an item before dropping it makes no difference. */
  lemma DropAgain(items: seq<Item<FrameId, Frame>>, x: Item<FrameId, Frame>)
    requires Distinct(items) && x in items
    ensures Without([x] + Without(items, x.key), x.key) == Without(items, x.key)
  {
    var rest := Without(items, x.key);
    WithoutDistinct(items, x.key);
    forall i | 0 <= i < |rest|
      ensures rest[i].key != x.key
    {
      WithoutIn(items, x.key, rest[i]);
    }
    var now := [x] + rest;
    forall i, j | 0 <= i < j < |now|
      ensures now[i].key != now[j].key
    {
    }
    WithoutAt(now, 0);
    assert now[..0] + now[1..] == rest;
  }

  lemma FreesIn(used: set<Frame>, frees: seq<Frame>, all: set<Frame>)
    requires Partition(used, frees, all)
    ensures forall f :: f in frees ==> f in all
  {
    NoFreeIn([], used, frees, all);
  }

  lemma UsedNotFree(used: set<Frame>, frees: seq<Frame>, all: set<Frame>, f: Frame)
    requires Partition(used, frees, all) && f in used
    ensures f in all && f !in frees
  {
    assert multiset(all)[f] == multiset(used)[f] + multiset(frees)[f];
    assert f in frees <==> f in multiset(frees);
  }
}
