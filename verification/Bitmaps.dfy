/** Searching a bitmap for the next set or clear bit. */
module Bitmaps {
  import opened Bits

  /** The number of bytes that hold `size` bits. */
  function ByteCount(size: nat): nat {
    if size % 8 == 0 then size / 8 else size / 8 + 1
  }

  ghost predicate Fits(bs: seq<bv8>, size: nat) {
    ByteCount(size) <= |bs|
  }

  lemma BytesCover(size: nat, n: nat)
    requires ByteCount(size) <= n
    ensures size <= 8 * n
  {
  }

  // ---- what is searched for ----

  /** The first set bit from `start` on, below `size`, or -1. */
  ghost function NextSet(bs: seq<bv8>, size: nat, start: nat): (r: int)
    requires Fits(bs, size)
    ensures r == -1 || start <= r < size
    decreases size - start
  {
    BytesCover(size, |bs|);
    if start >= size then -1 else if Bit(bs, start) then start else NextSet(bs, size, start + 1)
  }

  ghost function NextClear(bs: seq<bv8>, size: nat, start: nat): int
    requires Fits(bs, size)
    decreases size - start
  {
    BytesCover(size, |bs|);
    if start >= size then -1 else if !Bit(bs, start) then start else NextClear(bs, size, start + 1)
  }

  /** A stretch without set bits can be skipped. */
  lemma {:induction false} SkipClear(bs: seq<bv8>, size: nat, start: nat, stop: nat)
    requires Fits(bs, size) && start <= stop && |bs| * 8 >= stop
    requires forall i :: start <= i < stop && i < size ==> !Bit(bs, i)
    ensures NextSet(bs, size, start) == NextSet(bs, size, stop)
    decreases stop - start
  {
    if start < stop {
      SkipClear(bs, size, start + 1, stop);
    }
  }

  lemma {:induction false} NextSetIs(bs: seq<bv8>, size: nat, start: nat)
    requires Fits(bs, size)
    ensures var r := NextSet(bs, size, start);
      && (r == -1 || (start <= r < size <= 8 * |bs| && Bit(bs, r)))
      && forall i :: start <= i < size && i < 8 * |bs| && (r == -1 || i < r) ==> !Bit(bs, i)
    decreases size - start
  {
    BytesCover(size, |bs|);
    if start < size && !Bit(bs, start) {
      NextSetIs(bs, size, start + 1);
    }
  }

  lemma {:induction false} NextClearIs(bs: seq<bv8>, size: nat, start: nat)
    requires Fits(bs, size)
    ensures var r := NextClear(bs, size, start);
      && (r == -1 || (start <= r < size <= 8 * |bs| && !Bit(bs, r)))
      && forall i :: start <= i < size && i < 8 * |bs| && (r == -1 || i < r) ==> Bit(bs, i)
    decreases size - start
  {
    BytesCover(size, |bs|);
    if start < size && Bit(bs, start) {
      NextClearIs(bs, size, start + 1);
    }
  }

  // ---- within one byte ----

  /** The first set bit of a byte from `i` on, or 8. */
  function FirstIn(b: bv8, i: nat): (r: nat)
    requires i <= 8
    ensures i <= r <= 8 && (r < 8 ==> BitOf(b, r)) && forall k :: i <= k < r ==> !BitOf(b, k)
    decreases 8 - i
  {
    if i == 8 then 8 else if BitOf(b, i) then i else FirstIn(b, i + 1)
  }

  method FindFirstSetted(b: bv8, start: nat) returns (r: int)
    requires start < 8
    ensures r == if FirstIn(b, start) == 8 then -1 else FirstIn(b, start)
  {
    var i := start;
    while i < 8
      invariant start <= i <= 8 && FirstIn(b, i) == FirstIn(b, start)
    {
      if BitOf(b, i) {
        return i;
      }
      i := i + 1;
    }
    return -1;
  }

  method FindFirstZero(b: bv8, start: nat) returns (r: int)
    requires start < 8
    ensures r == if FirstIn(!b, start) == 8 then -1 else FirstIn(!b, start)
  {
    var i := start;
    while i < 8
      invariant start <= i <= 8 && FirstIn(!b, i) == FirstIn(!b, start)
    {
      FlippedBit(b, i);
      if !BitOf(b, i) {
        return i;
      }
      i := i + 1;
    }
    return -1;
  }

  // ---- over the bytes ----

  /** The first byte from `iter` on that is not zero, or the end. */
  ghost function FirstByte(bs: seq<bv8>, iter: nat, end: nat): (r: nat)
    requires iter <= end <= |bs|
    ensures iter <= r <= end && (r < end ==> bs[r] != 0) && forall k :: iter <= k < r ==> bs[k] == 0
    decreases end - iter
  {
    if iter == end || bs[iter] != 0 then iter else FirstByte(bs, iter + 1, end)
  }

  /** The loop of `next_setted_bit` from byte `iter` with the given offset. */
  ghost function Search(bs: seq<bv8>, end: nat, iter: nat, offset: nat): int
    requires iter <= end <= |bs| && offset < 8
    decreases end - iter
  {
    if iter == end then -1
    else if bs[iter] == 0 then Search(bs, end, iter + 1, offset)
    else if FirstIn(bs[iter], offset) < 8 then 8 * iter + FirstIn(bs[iter], offset)
    else Search(bs, end, iter + 1, 0)
  }

  function Below(r: int, size: nat): int {
    if r >= size then -1 else r
  }

  /** From a byte with a set bit, and from any byte with offset 0, the search is right. */
  lemma {:induction false} SearchRight(bs: seq<bv8>, size: nat, iter: nat, offset: nat, start: nat)
    requires Fits(bs, size) && iter <= ByteCount(size) && offset < 8 && start == 8 * iter + offset
    requires offset == 0 || (iter < ByteCount(size) && bs[iter] != 0)
    ensures Below(Search(bs, ByteCount(size), iter, offset), size) == NextSet(bs, size, start)
    decreases ByteCount(size) - iter
  {
    if iter == ByteCount(size) {
      BytesCover(size, iter);
    } else if FirstIn(bs[iter], offset) == 8 {
      SearchOn(bs, size, iter, offset);
      SkipByte(bs, size, iter, offset, start);
      SearchRight(bs, size, iter + 1, 0, 8 * (iter + 1));
    } else {
      SearchHit(bs, size, iter, offset, start);
    }
  }

  /** A byte without a set bit from `offset` on is passed. */
  lemma SearchOn(bs: seq<bv8>, size: nat, iter: nat, offset: nat)
    requires Fits(bs, size) && iter < ByteCount(size) && offset < 8 && FirstIn(bs[iter], offset) == 8
    requires offset == 0 || bs[iter] != 0
    ensures Search(bs, ByteCount(size), iter, offset) == Search(bs, ByteCount(size), iter + 1, 0)
  {
  }

  lemma SkipByte(bs: seq<bv8>, size: nat, iter: nat, offset: nat, start: nat)
    requires Fits(bs, size) && iter < |bs| && offset < 8 && FirstIn(bs[iter], offset) == 8 && start == 8 * iter + offset
    ensures NextSet(bs, size, start) == NextSet(bs, size, 8 * (iter + 1))
  {
    SkipBits(bs, size, iter, offset, 8);
    assert 8 * iter + 8 == 8 * (iter + 1);
  }

  /** A byte with a set bit from `offset` on ends the search. */
  lemma SearchHit(bs: seq<bv8>, size: nat, iter: nat, offset: nat, start: nat)
    requires Fits(bs, size) && iter < ByteCount(size) && offset < 8 && FirstIn(bs[iter], offset) < 8
    requires start == 8 * iter + offset
    ensures Below(Search(bs, ByteCount(size), iter, offset), size) == NextSet(bs, size, start)
  {
    var i := FirstIn(bs[iter], offset);
    SkipBits(bs, size, iter, offset, i);
    FirstBit(bs, size, iter, i);
    ZeroByte(bs[iter]);
  }

  lemma FirstBit(bs: seq<bv8>, size: nat, iter: nat, i: nat)
    requires Fits(bs, size) && iter < |bs| && i < 8 && BitOf(bs[iter], i)
    ensures Below(8 * iter + i, size) == NextSet(bs, size, 8 * iter + i)
  {
    ByteBit(iter, i);
    BytesCover(size, |bs|);
  }

  lemma ByteBit(iter: nat, i: nat)
    requires i < 8
    ensures (8 * iter + i) / 8 == iter && (8 * iter + i) % 8 == i
  {
  }

  /** Clear bits `from` to `stop` of byte `iter` are skipped. */
  lemma SkipBits(bs: seq<bv8>, size: nat, iter: nat, from: nat, stop: nat)
    requires Fits(bs, size) && iter < |bs| && from <= stop <= 8
    requires forall i :: from <= i < stop && 8 * iter + i < size ==> !BitOf(bs[iter], i)
    ensures NextSet(bs, size, 8 * iter + from) == NextSet(bs, size, 8 * iter + stop)
  {
    var start, end := 8 * iter + from, 8 * iter + stop;
    forall k | start <= k < end && k < size
      ensures !Bit(bs, k)
    {
      var i := k - 8 * iter;
      ByteBit(iter, i);
      assert !BitOf(bs[iter], i);
    }
    SkipClear(bs, size, start, end);
  }

  /** Zero bytes are passed with the offset kept. */
  lemma {:induction false} SearchZeros(bs: seq<bv8>, size: nat, iter: nat, offset: nat)
    requires Fits(bs, size) && iter <= ByteCount(size) && offset < 8
    ensures var j := FirstByte(bs, iter, ByteCount(size));
      Search(bs, ByteCount(size), iter, offset) == Search(bs, ByteCount(size), j, offset)
    decreases ByteCount(size) - iter
  {
    if iter < ByteCount(size) && bs[iter] == 0 {
      SearchZeros(bs, size, iter + 1, offset);
    }
  }

  /** So are the bits of zero bytes. */
  lemma NextZeros(bs: seq<bv8>, size: nat, iter: nat, offset: nat, j: nat)
    requires Fits(bs, size) && iter < j <= |bs| && offset < 8 && forall k :: iter <= k < j ==> bs[k] == 0
    ensures NextSet(bs, size, 8 * iter + offset) == NextSet(bs, size, 8 * j)
  {
    forall i | 8 * iter + offset <= i < 8 * j && i < size
      ensures !Bit(bs, i)
    {
      assert iter <= i / 8 < j;
      ZeroByte(bs[i / 8]);
    }
    SkipClear(bs, size, 8 * iter + offset, 8 * j);
  }

  /** The search is right: it starts at a byte boundary or in a byte with a set bit, or the first byte
      that is not zero has no set bit below the starting offset, which is carried over zero bytes. */
  ghost predicate Sound(bs: seq<bv8>, size: nat, start: nat)
    requires Fits(bs, size)
  {
    || start % 8 == 0
    || start / 8 >= ByteCount(size)
    || bs[start / 8] != 0
    || (var j := FirstByte(bs, start / 8, ByteCount(size));
        j == ByteCount(size) || forall i :: 0 <= i < start % 8 && 8 * j + i < size ==> !BitOf(bs[j], i))
  }

  /** Starting inside a zero byte, the result is that of starting at the same offset of the first byte
      that is not zero. */
  lemma SearchCarried(bs: seq<bv8>, size: nat, iter: nat, offset: nat)
    requires Fits(bs, size) && iter < ByteCount(size) && offset < 8 && bs[iter] == 0
    ensures var j := FirstByte(bs, iter, ByteCount(size));
      && NextSet(bs, size, 8 * iter + offset) == NextSet(bs, size, 8 * j)
      && Below(Search(bs, ByteCount(size), iter, offset), size) ==
        if j == ByteCount(size) then -1 else NextSet(bs, size, 8 * j + offset)
  {
    var j := FirstByte(bs, iter, ByteCount(size));
    NextZeros(bs, size, iter, offset, j);
    SearchZeros(bs, size, iter, offset);
    if j < ByteCount(size) {
      SearchRight(bs, size, j, offset, 8 * j + offset);
    }
  }

  /** Skipping bits makes a difference exactly when one of them is set. */
  lemma SkippedBits(bs: seq<bv8>, size: nat, j: nat, offset: nat)
    requires Fits(bs, size) && j < |bs| && offset < 8
    ensures NextSet(bs, size, 8 * j + offset) == NextSet(bs, size, 8 * j)
      <==> forall i :: 0 <= i < offset && 8 * j + i < size ==> !BitOf(bs[j], i)
  {
    BytesCover(size, |bs|);
    if forall i :: 0 <= i < offset && 8 * j + i < size ==> !BitOf(bs[j], i) {
      SkipBits(bs, size, j, 0, offset);
    } else {
      var i :| 0 <= i < offset && 8 * j + i < size && BitOf(bs[j], i);
      ByteBit(j, i);
      assert Bit(bs, 8 * j + i);
      NextSetIs(bs, size, 8 * j);
      NextSetIs(bs, size, 8 * j + offset);
    }
  }

  /** `next_setted_bit`, which does not reset its offset on passing a zero byte: it returns the next
      set bit if and only if the search is sound, and otherwise the next one from the same offset of
      the first byte that is not zero. */
  method NextSettedBit(bs: seq<bv8>, size: nat, start: nat) returns (r: int)
    requires Fits(bs, size)
    ensures r == NextSet(bs, size, start) <==> Sound(bs, size, start)
    ensures !Sound(bs, size, start) ==> r == NextSet(bs, size, 8 * FirstByte(bs, start / 8, ByteCount(size)) + start % 8)
  {
    r := -1;
    var offset, iter, end := start % 8, start / 8, ByteCount(size);
    if iter >= end {
      SearchExact(bs, size, start);
      return;
    }
    while iter < end
      invariant iter <= end && 0 <= offset < 8 && r == -1
      invariant Search(bs, end, start / 8, start % 8) == Search(bs, end, iter, offset)
    {
      var b := bs[iter];
      if b != 0 {
        var index := FindFirstSetted(b, offset);
        if index >= 0 {
          r := 8 * iter + index;
          break;
        }
        offset := 0;
      }
      iter := iter + 1;
    }
    if r >= size {
      r := -1;
    }
    SearchExact(bs, size, start);
  }

  lemma SearchExact(bs: seq<bv8>, size: nat, start: nat)
    requires Fits(bs, size)
    ensures start / 8 >= ByteCount(size) ==> NextSet(bs, size, start) == -1
    ensures start / 8 < ByteCount(size) ==>
      (Below(Search(bs, ByteCount(size), start / 8, start % 8), size) == NextSet(bs, size, start) <==> Sound(bs, size, start))
    ensures !Sound(bs, size, start) ==>
      && start / 8 < ByteCount(size)
      && Below(Search(bs, ByteCount(size), start / 8, start % 8), size)
        == NextSet(bs, size, 8 * FirstByte(bs, start / 8, ByteCount(size)) + start % 8)
  {
    var iter, offset := start / 8, start % 8;
    assert start == 8 * iter + offset;
    if iter < ByteCount(size) {
      if offset == 0 || bs[iter] != 0 {
        SearchRight(bs, size, iter, offset, start);
      } else {
        CarriedExact(bs, size, iter, offset, start);
      }
    }
  }

  /** From inside a zero byte the search is right if and only if it skips no set bit. */
  lemma CarriedExact(bs: seq<bv8>, size: nat, iter: nat, offset: nat, start: nat)
    requires Fits(bs, size) && iter < ByteCount(size) && offset < 8 && bs[iter] == 0 && start == 8 * iter + offset
    ensures var j := FirstByte(bs, iter, ByteCount(size)); var r := Below(Search(bs, ByteCount(size), iter, offset), size);
      && (r == NextSet(bs, size, start)
          <==> j == ByteCount(size) || forall i :: 0 <= i < offset && 8 * j + i < size ==> !BitOf(bs[j], i))
      && (j < ByteCount(size) ==> r == NextSet(bs, size, 8 * j + offset))
  {
    SearchCarried(bs, size, iter, offset);
    var j := FirstByte(bs, iter, ByteCount(size));
    if j < ByteCount(size) {
      SkippedBits(bs, size, j, offset);
    } else {
      NothingBeyond(bs, size, j);
    }
  }

  lemma NothingBeyond(bs: seq<bv8>, size: nat, j: nat)
    requires Fits(bs, size) && ByteCount(size) <= j
    ensures NextSet(bs, size, 8 * j) == -1
  {
    BytesCover(size, j);
  }

  /** After a set bit the search for the next one is sound, whatever follows. */
  lemma SoundAfterSet(bs: seq<bv8>, size: nat, k: nat)
    requires Fits(bs, size) && k < 8 * |bs| && Bit(bs, k)
    ensures Sound(bs, size, k + 1)
  {
    ZeroByte(bs[k / 8]);
    assert bs[k / 8] != 0;
    assert (k + 1) % 8 == 0 || (k + 1) / 8 == k / 8;
  }

  /** With bit 8 set and nothing before it, a search from 1 misses it. */
  lemma MissedBit()
    ensures var bs: seq<bv8> := [0, 1]; NextSet(bs, 16, 1) == 8 && !Sound(bs, 16, 1)
  {
    var bs: seq<bv8> := [0, 1];
    assert FirstByte(bs, 1, 2) == 1 && FirstByte(bs, 0, 2) == 1;
    assert BitOf(bs[1], 0);
    NextSetIs(bs, 16, 1);
    SkipBits(bs, 16, 0, 1, 8);
    assert Bit(bs, 8);
  }

  // ---- clear bits: the same search on the flipped bytes ----

  function Flipped(bs: seq<bv8>): (r: seq<bv8>)
    ensures |r| == |bs| && forall i :: 0 <= i < |bs| ==> r[i] == !bs[i]
  {
    seq(|bs|, i requires 0 <= i < |bs| => !bs[i])
  }

  lemma FlippedBit(b: bv8, i: nat)
    requires i < 8
    ensures BitOf(!b, i) <==> !BitOf(b, i)
  {
  }

  lemma FlippedByte(b: bv8)
    ensures !b == 0 <==> b == 0xFF
  {
  }

  lemma {:induction false} ClearIsFlippedSet(bs: seq<bv8>, size: nat, start: nat)
    requires Fits(bs, size)
    ensures NextClear(bs, size, start) == NextSet(Flipped(bs), size, start)
    decreases size - start
  {
    BytesCover(size, |bs|);
    if start < size {
      FlippedBit(bs[start / 8], start % 8);
      ClearIsFlippedSet(bs, size, start + 1);
    }
  }

  /** The search for a clear bit is right, for the reasons for which that for a set bit is: it is the
      bytes 0xFF that are passed with the offset kept. */
  ghost predicate SoundClear(bs: seq<bv8>, size: nat, start: nat)
    requires Fits(bs, size)
  {
    Sound(Flipped(bs), size, start)
  }

  /** `next_unsetted_bit`, from any start: it returns the next clear bit if and only if the search is
      sound, and otherwise the next one from the same offset of the first byte that is not 0xFF. */
  method NextUnsettedBit(bs: seq<bv8>, size: nat, start: nat) returns (r: int)
    requires Fits(bs, size)
    ensures r == NextClear(bs, size, start) <==> SoundClear(bs, size, start)
    ensures !SoundClear(bs, size, start)
      ==> r == NextClear(bs, size, 8 * FirstByte(Flipped(bs), start / 8, ByteCount(size)) + start % 8)
  {
    r := -1;
    var offset, iter, end := start % 8, start / 8, ByteCount(size);
    ghost var flipped := Flipped(bs);
    if iter >= end {
      ClearSearchExact(bs, size, start);
      return;
    }
    while iter < end
      invariant iter <= end && 0 <= offset < 8 && r == -1
      invariant Search(flipped, end, start / 8, start % 8) == Search(flipped, end, iter, offset)
    {
      var b := bs[iter];
      FlippedByte(b);
      assert flipped[iter] == !b;
      if b != 0xFF {
        var index := FindFirstZero(b, offset);
        if index >= 0 {
          r := 8 * iter + index;
          break;
        }
        offset := 0;
      }
      iter := iter + 1;
    }
    if r >= size {
      r := -1;
    }
    ClearSearchExact(bs, size, start);
  }

  lemma ClearSearchExact(bs: seq<bv8>, size: nat, start: nat)
    requires Fits(bs, size)
    ensures start / 8 >= ByteCount(size) ==> NextClear(bs, size, start) == -1 && SoundClear(bs, size, start)
    ensures start / 8 < ByteCount(size) ==> var r := Below(Search(Flipped(bs), ByteCount(size), start / 8, start % 8), size);
      && (r == NextClear(bs, size, start) <==> SoundClear(bs, size, start))
      && (!SoundClear(bs, size, start)
        ==> r == NextClear(bs, size, 8 * FirstByte(Flipped(bs), start / 8, ByteCount(size)) + start % 8))
  {
    SearchExact(Flipped(bs), size, start);
    forall k: nat
      ensures NextClear(bs, size, k) == NextSet(Flipped(bs), size, k)
    {
      ClearIsFlippedSet(bs, size, k);
    }
  }

  /** From a byte boundary the search for a clear bit is sound. */
  lemma SoundClearAtByte(bs: seq<bv8>, size: nat, start: nat)
    requires Fits(bs, size) && start % 8 == 0
    ensures SoundClear(bs, size, start)
  {
  }

  /** With 8 bits set and the next one clear, a search from 1 misses it. */
  lemma MissedClearBit()
    ensures var bs: seq<bv8> := [0xFF, 0xFE]; NextClear(bs, 16, 1) == 8 && !SoundClear(bs, 16, 1)
  {
    var bs: seq<bv8> := [0xFF, 0xFE];
    assert Flipped(bs) == [0, 1];
    MissedBit();
    ClearIsFlippedSet(bs, 16, 1);
  }
}
