/** Bitmaps stored in bytes, as the page allocator and the record pages keep them. */
module Bits {

  /** The byte in which only bit `i` is set. */
  function Mask(i: int): bv8
    requires 0 <= i < 8
  {
    if i == 0 then 0x01 else if i == 1 then 0x02 else if i == 2 then 0x04 else if i == 3 then 0x08
    else if i == 4 then 0x10 else if i == 5 then 0x20 else if i == 6 then 0x40 else 0x80
  }

  predicate BitOf(b: bv8, i: int)
    requires 0 <= i < 8
  {
    b & Mask(i) != 0
  }

  /** Bit `i` of a bitmap. */
  predicate Bit(bs: seq<bv8>, i: int)
    requires 0 <= i < 8 * |bs|
  {
    BitOf(bs[i / 8], i % 8)
  }

  function SetBit(bs: seq<bv8>, i: int): seq<bv8>
    requires 0 <= i < 8 * |bs|
  {
    bs[i / 8 := bs[i / 8] | Mask(i % 8)]
  }

  function ClearBit(bs: seq<bv8>, i: int): seq<bv8>
    requires 0 <= i < 8 * |bs|
  {
    bs[i / 8 := bs[i / 8] & !Mask(i % 8)]
  }

  lemma SetByte(b: bv8, i: int, j: int)
    requires 0 <= i < 8 && 0 <= j < 8
    ensures BitOf(b | Mask(i), j) <==> j == i || BitOf(b, j)
  {
  }

  lemma ClearByte(b: bv8, i: int, j: int)
    requires 0 <= i < 8 && 0 <= j < 8
    ensures BitOf(b & !Mask(i), j) <==> j != i && BitOf(b, j)
  {
  }

  lemma ZeroByte(b: bv8)
    ensures b == 0 <==> (forall i :: 0 <= i < 8 ==> !BitOf(b, i))
  {
    assert b == 0 || BitOf(b, 0) || BitOf(b, 1) || BitOf(b, 2) || BitOf(b, 3) || BitOf(b, 4) || BitOf(b, 5) || BitOf(b, 6) || BitOf(b, 7);
  }

  /** Bit `i` is bit `i % 8` of byte `i / 8`, counted from the lowest. */
  lemma BitIsShift(bs: seq<bv8>, i: int)
    requires 0 <= i < 8 * |bs|
    ensures Bit(bs, i) <==> (bs[i / 8] >> (i % 8)) & 1 == 1
  {
    ByteShift(bs[i / 8], i % 8);
  }

  lemma ByteShift(b: bv8, j: int)
    requires 0 <= j < 8
    ensures BitOf(b, j) <==> (b >> j) & 1 == 1
  {
    if j == 0 {
      assert b & 0x01 != 0 <==> (b >> 0) & 1 == 1;
    } else if j == 1 {
      assert b & 0x02 != 0 <==> (b >> 1) & 1 == 1;
    } else if j == 2 {
      assert b & 0x04 != 0 <==> (b >> 2) & 1 == 1;
    } else if j == 3 {
      assert b & 0x08 != 0 <==> (b >> 3) & 1 == 1;
    } else if j == 4 {
      assert b & 0x10 != 0 <==> (b >> 4) & 1 == 1;
    } else if j == 5 {
      assert b & 0x20 != 0 <==> (b >> 5) & 1 == 1;
    } else if j == 6 {
      assert b & 0x40 != 0 <==> (b >> 6) & 1 == 1;
    } else {
      assert b & 0x80 != 0 <==> (b >> 7) & 1 == 1;
    }
  }

  /** Setting a bit changes that bit and no other. */
  lemma SetBitAt(bs: seq<bv8>, i: int)
    requires 0 <= i < 8 * |bs|
    ensures forall j :: 0 <= j < 8 * |bs| ==> (Bit(SetBit(bs, i), j) <==> j == i || Bit(bs, j))
  {
    forall j | 0 <= j < 8 * |bs|
      ensures Bit(SetBit(bs, i), j) <==> j == i || Bit(bs, j)
    {
      SetByte(bs[i / 8], i % 8, j % 8);
    }
  }

  /** Clearing a bit changes that bit and no other. */
  lemma ClearBitAt(bs: seq<bv8>, i: int)
    requires 0 <= i < 8 * |bs|
    ensures forall j :: 0 <= j < 8 * |bs| ==> (Bit(ClearBit(bs, i), j) <==> j != i && Bit(bs, j))
  {
    forall j | 0 <= j < 8 * |bs|
      ensures Bit(ClearBit(bs, i), j) <==> j != i && Bit(bs, j)
    {
      ClearByte(bs[i / 8], i % 8, j % 8);
    }
  }
}
