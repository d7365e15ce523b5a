/** Index keys: attribute comparison, record identifiers, and their rank as one integer. */
module Keys {
  import opened ByteStrings
  import opened BPlusState
  import opened Wrappers

  const RID_RANGE := 0x4000_0000_0000_0000  // number of RIDs with 31-bit page and slot numbers

  /** Attribute types an index key can have; FLOATS compare with an epsilon and have no order. */
  datatype AttrType = Ints | Chars(length: nat)

  /** An attribute value as stored: a 32-bit integer, or exactly `length` bytes. */
  datatype Attr = IntAttr(v: int) | CharsAttr(bs: seq<int>)

  datatype Key = Key(attr: Attr, rid: Rid)

  ghost predicate ValidAttr(t: AttrType, a: Attr) {
    match t
    case Ints => a.IntAttr? && IsInt32(a.v)
    case Chars(n) => a.CharsAttr? && |a.bs| == n && Bytes(a.bs)
  }

  /** Page and slot numbers are non-negative 32-bit integers. */
  ghost predicate ValidRid(r: Rid) {
    0 <= r.page < HALF && 0 <= r.slot < HALF
  }

  ghost predicate ValidKey(t: AttrType, k: Key) {
    ValidAttr(t, k.attr) && ValidRid(k.rid)
  }

  /** 32-bit two's complement wrap-around. */
  function Wrap32(x: int): int {
    (x + HALF) % (2 * HALF) - HALF
  }

  /** `compare_int` subtracts in 32 bits. */
  function CompareInt(a: int, b: int): int {
    Wrap32(a - b)
  }

  function Sign(x: int): int {
    if x < 0 then -1 else if x == 0 then 0 else 1
  }

  /** The subtraction compares correctly exactly when the difference fits in 32 bits. */
  lemma CompareIntSign(a: int, b: int)
    requires IsInt32(a) && IsInt32(b)
    ensures Sign(CompareInt(a, b)) == Sign(a - b) <==> IsInt32(a - b)
  {
    var d := a - b;
    if d >= HALF {
      assert (d + HALF) % (2 * HALF) == d + HALF - 2 * HALF;
    } else if d < -HALF {
      assert (d + HALF) % (2 * HALF) == d + HALF + 2 * HALF;
    } else {
      assert (d + HALF) % (2 * HALF) == d + HALF;
    }
  }

  /** memcmp over two byte strings of one length, by prefixes. */
  function MemcmpOf(a: seq<int>, b: seq<int>): int
    requires |a| == |b|
  {
    if a == [] then 0
    else
      var n := |a| - 1;
      var m := MemcmpOf(a[..n], b[..n]);
      if m != 0 then m else a[n] - b[n]
  }

  /** memcmp: the difference at the first byte where the strings differ. */
  method Memcmp(a: seq<int>, b: seq<int>) returns (r: int)
    requires |a| == |b|
    ensures r == MemcmpOf(a, b)
  {
    var i := 0;
    while i < |a| && a[i] == b[i]
      invariant 0 <= i <= |a| && MemcmpOf(a[..i], b[..i]) == 0
    {
      assert a[..i + 1][..i] == a[..i] && b[..i + 1][..i] == b[..i];
      i := i + 1;
    }
    if i == |a| {
      assert a[..i] == a && b[..i] == b;
      return 0;
    }
    r := a[i] - b[i];
    assert a[..i + 1][..i] == a[..i] && b[..i + 1][..i] == b[..i];
    FirstDifference(a, b, i + 1);
  }

  lemma {:induction false} FirstDifference(a: seq<int>, b: seq<int>, i: int)
    requires |a| == |b| && 0 <= i <= |a| && MemcmpOf(a[..i], b[..i]) != 0
    ensures MemcmpOf(a, b) == MemcmpOf(a[..i], b[..i])
    decreases |a|
  {
    if i == |a| {
      assert a[..i] == a && b[..i] == b;
    } else {
      var n := |a| - 1;
      assert a[..n][..i] == a[..i] && b[..n][..i] == b[..i];
      FirstDifference(a[..n], b[..n], i);
    }
  }

  /** Byte strings read as big-endian numbers. */
  function Num(bs: seq<int>): int {
    if bs == [] then 0 else 256 * Num(bs[..|bs| - 1]) + bs[|bs| - 1]
  }

  function Pow256(n: nat): nat {
    if n == 0 then 1 else 256 * Pow256(n - 1)
  }

  lemma {:induction false} NumRange(bs: seq<int>)
    requires Bytes(bs)
    ensures 0 <= Num(bs) < Pow256(|bs|)
  {
    if bs != [] {
      NumRange(bs[..|bs| - 1]);
    }
  }

  /** memcmp orders equally long byte strings as big-endian numbers, and tells different ones apart. */
  lemma {:induction false} MemcmpIsNum(a: seq<int>, b: seq<int>)
    requires |a| == |b| && Bytes(a) && Bytes(b)
    ensures Sign(MemcmpOf(a, b)) == Sign(Num(a) - Num(b))
    ensures Num(a) == Num(b) ==> a == b
  {
    if a != [] {
      var n := |a| - 1;
      MemcmpIsNum(a[..n], b[..n]);
      assert a == a[..n] + [a[n]] && b == b[..n] + [b[n]];
    }
  }

  function CompareAttr(t: AttrType, a: Attr, b: Attr): int
    requires t.Ints? ==> a.IntAttr? && b.IntAttr?
    requires t.Chars? ==> a.CharsAttr? && b.CharsAttr? && |a.bs| == |b.bs|
  {
    if t.Ints? then CompareInt(a.v, b.v) else MemcmpOf(a.bs, b.bs)
  }

  function CompareRid(a: Rid, b: Rid): int {
    if Wrap32(a.page - b.page) != 0 then Wrap32(a.page - b.page) else Wrap32(a.slot - b.slot)
  }

  /** `KeyComparator`: the attribute first, then the RID. */
  function CompareKey(t: AttrType, a: Key, b: Key): int
    requires t.Ints? ==> a.attr.IntAttr? && b.attr.IntAttr?
    requires t.Chars? ==> a.attr.CharsAttr? && b.attr.CharsAttr? && |a.attr.bs| == |b.attr.bs|
  {
    var r := CompareAttr(t, a.attr, b.attr);
    if r != 0 then r else CompareRid(a.rid, b.rid)
  }

  /** The attribute bytes whose big-endian number is `n`. */
  function Digits(n: int, width: nat): (bs: seq<int>)
    ensures |bs| == width
    decreases width
  {
    if width == 0 then [] else Digits(n / 256, width - 1) + [n % 256]
  }

  lemma {:induction false} DigitsNum(n: nat, width: nat)
    requires n < Pow256(width)
    ensures Bytes(Digits(n, width)) && Num(Digits(n, width)) == n
  {
    if width > 0 {
      DigitsNum(n / 256, width - 1);
      assert Digits(n, width)[..width - 1] == Digits(n / 256, width - 1);
    }
  }

  /** Different byte strings compare by the first byte in which they differ. */
  lemma {:induction false} MemcmpFirst(a: seq<int>, b: seq<int>) returns (i: nat)
    requires |a| == |b| && a != b
    ensures i < |a| && a[..i] == b[..i] && a[i] != b[i] && MemcmpOf(a, b) == a[i] - b[i]
  {
    var n := |a| - 1;
    assert a == a[..n] + [a[n]] && b == b[..n] + [b[n]];
    if a[..n] == b[..n] {
      i := n;
      MemcmpSame(a[..n]);
    } else {
      i := MemcmpFirst(a[..n], b[..n]);
      assert a[..n][..i] == a[..i] && b[..n][..i] == b[..i];
    }
  }

  lemma {:induction false} MemcmpSame(a: seq<int>)
    ensures MemcmpOf(a, a) == 0
  {
    if a != [] {
      MemcmpSame(a[..|a| - 1]);
    }
  }

  // ---- ranks ----

  /** The least value of the integers an index may hold: 2^31 consecutive ones, so that any two of them
      can be compared. CHARS attributes need no such base. */
  ghost predicate Base(t: AttrType, w: int) {
    t.Ints? ==> -HALF <= w <= 0
  }

  function AttrRank(w: int, a: Attr): int {
    match a
    case IntAttr(v) => v - w
    case CharsAttr(bs) => Num(bs)
  }

  function AttrRange(t: AttrType): int {
    match t
    case Ints => HALF
    case Chars(n) => Pow256(n)
  }

  function RidRank(r: Rid): int {
    r.page * HALF + r.slot
  }

  /** The position of a key among all keys of its type from base `w` on. */
  function Rank(w: int, k: Key): int {
    AttrRank(w, k.attr) * RID_RANGE + RidRank(k.rid)
  }

  /** A key an index with base `w` may hold. */
  ghost predicate InWindow(t: AttrType, w: int, k: Key) {
    ValidKey(t, k) && (t.Ints? ==> w <= k.attr.v < w + HALF)
  }

  lemma RankRange(t: AttrType, w: int, k: Key)
    requires InWindow(t, w, k)
    ensures 0 <= AttrRank(w, k.attr) < AttrRange(t) && 0 <= RidRank(k.rid) < RID_RANGE
    ensures 0 <= Rank(w, k) < AttrRange(t) * RID_RANGE
    ensures Rank(w, k) / RID_RANGE == AttrRank(w, k.attr) && Rank(w, k) % RID_RANGE == RidRank(k.rid)
  {
    if t.Chars? {
      NumRange(k.attr.bs);
    }
  }

  lemma CompareRidSign(a: Rid, b: Rid)
    requires ValidRid(a) && ValidRid(b)
    ensures Sign(CompareRid(a, b)) == Sign(RidRank(a) - RidRank(b))
    ensures RidRank(a) == RidRank(b) ==> a == b
  {
    CompareIntSign(a.page, b.page);
    CompareIntSign(a.slot, b.slot);
  }

  /** Between keys of one window the key comparator is the integer order of ranks, and equal ranks are
      equal keys. */
  lemma CompareKeyIsRank(t: AttrType, w: int, a: Key, b: Key)
    requires InWindow(t, w, a) && InWindow(t, w, b)
    ensures Sign(CompareKey(t, a, b)) == Sign(Rank(w, a) - Rank(w, b))
    ensures Rank(w, a) == Rank(w, b) ==> a == b
  {
    RankRange(t, w, a);
    RankRange(t, w, b);
    if t.Ints? {
      CompareIntSign(a.attr.v, b.attr.v);
    } else {
      MemcmpIsNum(a.attr.bs, b.attr.bs);
    }
    CompareRidSign(a.rid, b.rid);
  }

  /** The key with a given rank. */
  function KeyAt(t: AttrType, w: int, x: int): (k: Key)
    ensures t.Ints? ==> k.attr.IntAttr?
    ensures t.Chars? ==> k.attr.CharsAttr? && |k.attr.bs| == t.length
  {
    var n := x / RID_RANGE;
    Key(if t.Ints? then IntAttr(w + n) else CharsAttr(Digits(n, t.length)), Rid(x % RID_RANGE / HALF, x % HALF))
  }

  lemma RidBack(x: int)
    ensures var r := Rid(x % RID_RANGE / HALF, x % HALF); ValidRid(r) && RidRank(r) == x % RID_RANGE
  {
    var q, y := x / RID_RANGE, x % RID_RANGE;
    assert x == RID_RANGE * q + y;
    SlotPart(x, HALF * q + y / HALF, y % HALF);
  }

  lemma SlotPart(x: int, k: int, r: int)
    requires x == HALF * k + r && 0 <= r < HALF
    ensures x % HALF == r
  {
  }

  lemma KeyAtRank(t: AttrType, w: int, x: int)
    requires Base(t, w) && 0 <= x < AttrRange(t) * RID_RANGE
    ensures InWindow(t, w, KeyAt(t, w, x)) && Rank(w, KeyAt(t, w, x)) == x
  {
    RidBack(x);
    var n := x / RID_RANGE;
    assert 0 <= n < AttrRange(t);
    if t.Chars? {
      DigitsNum(n, t.length);
    }
  }

  /** The key of a rank is the key that has it. */
  lemma KeyBack(t: AttrType, w: int, k: Key)
    requires Base(t, w) && InWindow(t, w, k)
    ensures KeyAt(t, w, Rank(w, k)) == k
  {
    RankRange(t, w, k);
    KeyAtRank(t, w, Rank(w, k));
    CompareKeyIsRank(t, w, KeyAt(t, w, Rank(w, k)), k);
  }

  /** The order of keys in an index: by the attribute value, as integers or byte by byte, then by page number,
      then by slot number. */
  ghost predicate Precedes(a: Key, b: Key) {
    AttrBefore(a.attr, b.attr)
    || (a.attr == b.attr && (a.rid.page < b.rid.page || (a.rid.page == b.rid.page && a.rid.slot < b.rid.slot)))
  }

  ghost predicate AttrBefore(a: Attr, b: Attr) {
    match a
    case IntAttr(v) => b.IntAttr? && v < b.v
    case CharsAttr(bs) => b.CharsAttr? && exists i :: 0 <= i < |bs| && i < |b.bs| && bs[..i] == b.bs[..i] && bs[i] < b.bs[i]
  }

  /** Ranks order keys as the index does. */
  lemma RankOrders(t: AttrType, w: int, a: Key, b: Key)
    requires InWindow(t, w, a) && InWindow(t, w, b) && Rank(w, a) < Rank(w, b)
    ensures Precedes(a, b)
  {
    RankRange(t, w, a);
    RankRange(t, w, b);
    if AttrRank(w, a.attr) == AttrRank(w, b.attr) {
      if t.Chars? {
        MemcmpIsNum(a.attr.bs, b.attr.bs);
      }
      assert RidRank(a.rid) < RidRank(b.rid);
    } else if t.Chars? {
      MemcmpIsNum(a.attr.bs, b.attr.bs);
      var i := MemcmpFirst(a.attr.bs, b.attr.bs);
    }
  }

  /** The source's comparator, on ranks. */
  function CompareRanks(t: AttrType, w: int): Comparator {
    (a, b) => CompareKey(t, KeyAt(t, w, a), KeyAt(t, w, b))
  }

  /** The configuration of an index over attributes of type `t`. */
  function KeyCfg(t: AttrType, w: int, leafMax: int, internalMax: int): Cfg {
    Cfg(leafMax, internalMax, AttrRange(t) * RID_RANGE, if t.Ints? then -w * RID_RANGE else 0, CompareRanks(t, w))
  }

  /** On the ranks of a window the source's comparator is the integer order, so the index is well
      configured with it. */
  lemma KeyCfgOk(t: AttrType, w: int, leafMax: int, internalMax: int)
    requires Base(t, w) && leafMax >= 4 && internalMax >= 6
    ensures KeyCfg(t, w, leafMax, internalMax).Ok()
  {
    var c := KeyCfg(t, w, leafMax, internalMax);
    if t.Chars? {
      PowPositive(t.length);
    }
    forall a, b | 0 <= a < c.limit && 0 <= b < c.limit
      ensures (c.cmp(a, b) < 0 <==> a < b) && (c.cmp(a, b) == 0 <==> a == b)
    {
      KeyAtRank(t, w, a);
      KeyAtRank(t, w, b);
      CompareKeyIsRank(t, w, KeyAt(t, w, a), KeyAt(t, w, b));
    }
  }

  lemma {:induction false} PowPositive(n: nat)
    ensures Pow256(n) >= 1
  {
    if n > 0 {
      PowPositive(n - 1);
    }
  }

  // ---- integers that cannot all be compared ----

  /** The order of INTS keys as it should be. */
  ghost predicate Before(a: Key, b: Key)
    requires a.attr.IntAttr? && b.attr.IntAttr?
  {
    a.attr.v < b.attr.v || (a.attr.v == b.attr.v && RidRank(a.rid) < RidRank(b.rid))
  }

  lemma CompareIntsExact(a: Key, b: Key)
    requires ValidKey(Ints, a) && ValidKey(Ints, b)
    ensures (CompareKey(Ints, a, b) < 0 <==> Before(a, b)) <==> IsInt32(a.attr.v - b.attr.v)
    ensures (CompareKey(Ints, a, b) > 0 <==> Before(b, a)) <==> IsInt32(a.attr.v - b.attr.v)
  {
    CompareIntSign(a.attr.v, b.attr.v);
    CompareRidSign(a.rid, b.rid);
    if !IsInt32(a.attr.v - b.attr.v) {
      CompareIntWraps(a.attr.v, b.attr.v);
    }
  }

  /** A difference that does not fit changes its sign. */
  lemma CompareIntWraps(a: int, b: int)
    requires IsInt32(a) && IsInt32(b) && !IsInt32(a - b)
    ensures CompareInt(a, b) < 0 <==> a > b
    ensures CompareInt(a, b) != 0
  {
    var d := a - b;
    if d >= HALF {
      assert (d + HALF) % (2 * HALF) == d + HALF - 2 * HALF;
    } else {
      assert (d + HALF) % (2 * HALF) == d + HALF + 2 * HALF;
    }
  }

  /** The search for `b` puts `k` on the right side. */
  ghost predicate SearchedRight(k: Key, b: Key) {
    k.attr.IntAttr? && b.attr.IntAttr? && (CompareKey(Ints, k, b) < 0 <==> Before(k, b))
  }

  /** The test whether `k` lies beyond the right end `b` is right. */
  ghost predicate EndedRight(k: Key, b: Key) {
    k.attr.IntAttr? && b.attr.IntAttr? && (CompareKey(Ints, k, b) > 0 <==> Before(b, k))
  }

  ghost predicate Near(k: Key, b: Key) {
    k.attr.IntAttr? && b.attr.IntAttr? && IsInt32(k.attr.v - b.attr.v)
  }

  /** Searching for a key `b`, and testing for the end at `b`, compare every stored key rightly if and
      only if every stored value differs from `b`'s by what 32 bits can hold. */
  lemma SearchExact(stored: set<Key>, b: Key)
    requires ValidKey(Ints, b) && forall k :: k in stored ==> ValidKey(Ints, k)
    ensures (forall k :: k in stored ==> SearchedRight(k, b)) <==> (forall k :: k in stored ==> Near(k, b))
    ensures (forall k :: k in stored ==> EndedRight(k, b)) <==> (forall k :: k in stored ==> Near(k, b))
  {
    forall k | k in stored
      ensures (SearchedRight(k, b) <==> Near(k, b)) && (EndedRight(k, b) <==> Near(k, b))
    {
      CompareIntsExact(k, b);
    }
  }

  /** Every two of a set of values can be compared if and only if some window holds them all. */
  lemma WindowExact(vs: set<int>)
    requires forall v :: v in vs ==> IsInt32(v)
    ensures (forall a, b :: a in vs && b in vs ==> IsInt32(a - b))
      <==> exists w :: Base(Ints, w) && forall v :: v in vs ==> w <= v < w + HALF
  {
    if vs == {} {
      assert Base(Ints, 0);
    } else if forall a, b :: a in vs && b in vs ==> IsInt32(a - b) {
      var m := Least(vs);
      var w := if m < 0 then m else 0;
      assert Base(Ints, w) && forall v :: v in vs ==> w <= v < w + HALF by {
        forall v | v in vs
          ensures w <= v < w + HALF
        {
          assert IsInt32(v - m);
        }
      }
    }
  }

  /** A stored -2^31 is taken to lie beyond a right end of 2^31 - 1: an unbounded scan up to it ends at once. */
  lemma EndTestWraps(rid: Rid, end: Rid)
    requires ValidRid(rid) && ValidRid(end)
    ensures CompareKey(Ints, Key(IntAttr(-HALF), rid), Key(IntAttr(HALF - 1), end)) > 0
  {
    CompareIntWraps(-HALF, HALF - 1);
  }
}
