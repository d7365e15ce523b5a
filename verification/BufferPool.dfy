/** Page allocation and pin counting of one file, over the bitmap in its header page. */
module BufferPool {
  import opened Bits

  /** A set of `n` pages below `n` is all of them. */
  lemma {:induction false} FullBelow(s: set<int>, n: nat)
    requires forall i :: i in s ==> 0 <= i < n
    ensures |s| <= n
    ensures |s| == n <==> (forall i :: 0 <= i < n ==> i in s)
    decreases n
  {
    if n == 0 {
      assert forall i :: i in s ==> false;
      assert s == {};
    } else if n - 1 in s {
      var s' := s - {n - 1};
      FullBelow(s', n - 1);
      assert forall i :: 0 <= i < n - 1 ==> (i in s' <==> i in s);
    } else {
      FullBelow(s, n - 1);
    }
  }

  /** How `dispose_page` ends; a page that is still pinned fails an assertion. */
  datatype Disposal = Disposed | NotFound | StillPinned

  /** How `allocate_page` ends. */
  datatype Allocation = Allocated | NoneLeft | Unreadable

  class FileBufferPool {
    const bytes: nat           // size of the bitmap
    const stored: bool         // a page that was given back can be read from the file
    var pageCount: int         // pages in the file, header page included
    var allocatedPages: int    // pages in use
    var bitmap: seq<bv8>       // one bit per page
    var resident: set<int>     // pages that have a frame
    var pins: multiset<int>    // multiplicity is the pin count of the page's frame

    ghost var alloc: set<int>  // the pages whose bit is set

    /** The number of pages not in use. */
    ghost function Free(): int
      reads `alloc
    {
      8 * bytes - |alloc|
    }

    /** Every page that waits to be used again, if there is one, can be read. */
    ghost predicate Steady()
      reads `pageCount, `allocatedPages
    {
      stored || allocatedPages == pageCount
    }

    /** The number of allocations that succeed from here on. */
    ghost function Room(): int
      reads `pageCount, `allocatedPages, `alloc
    {
      if Steady() then Free() else 0
    }

    ghost predicate BitsOk()
      reads `bitmap, `alloc
    {
      && (forall i :: i in alloc ==> 0 <= i < 8 * |bitmap|)
      && (forall i {:trigger Bit(bitmap, i)} :: 0 <= i < 8 * |bitmap| ==> (Bit(bitmap, i) <==> i in alloc))
    }

    ghost predicate Valid()
      reads this
    {
      && BitsOk() && |bitmap| == bytes
      && 1 <= pageCount <= 8 * |bitmap|
      && (forall i :: i in alloc ==> i < pageCount)
      && allocatedPages == |alloc| <= pageCount
      && 0 in alloc && 0 in resident
      && resident <= alloc
      && (forall p :: p in pins ==> p in resident)
    }

    /** Creating a file and opening it: only the header page, pinned once. */
    constructor Create(size: nat, readable: bool)
      requires size >= 1
      ensures Valid() && bytes == size && stored == readable
      ensures alloc == {0} && pins == multiset{0} && Steady()
    {
      bytes, stored := size, readable;
      var zeros := seq(size, _ => 0 as bv8);
      pageCount, allocatedPages := 1, 1;
      bitmap := SetBit(zeros, 0);
      resident, pins, alloc := {0}, multiset{0}, {0};
      SetBitAt(zeros, 0);
    }

    method GetThisPage(p: int)
      requires Valid() && p in alloc
      modifies `resident, `pins
      ensures Valid() && resident == old(resident) + {p} && pins == old(pins) + multiset{p}
    {
      resident := resident + {p};
      pins := pins + multiset{p};
    }

    method UnpinPage(p: int)
      requires Valid() && pins[p] > 0
      modifies `pins
      ensures Valid() && pins == old(pins) - multiset{p}
    {
      pins := pins - multiset{p};
    }

    method MarkAllocated(p: int)
      requires BitsOk() && 0 <= p < 8 * |bitmap| && p !in alloc && allocatedPages == |alloc|
      modifies `allocatedPages, `bitmap, `alloc
      ensures BitsOk() && |bitmap| == old(|bitmap|) && allocatedPages == old(allocatedPages) + 1 == |alloc|
      ensures alloc == old(alloc) + {p} && p !in old(alloc)
    {
      SetBitAt(bitmap, p);
      allocatedPages := allocatedPages + 1;
      bitmap := SetBit(bitmap, p);
      alloc := alloc + {p};
    }

    method MarkFree(p: int)
      requires BitsOk() && p in alloc && allocatedPages == |alloc|
      modifies `allocatedPages, `bitmap, `alloc
      ensures BitsOk() && |bitmap| == old(|bitmap|) && allocatedPages == old(allocatedPages) - 1 == |alloc|
      ensures alloc == old(alloc) - {p}
    {
      ClearBitAt(bitmap, p);
      alloc := alloc - {p};
      allocatedPages := allocatedPages - 1;
      bitmap := ClearBit(bitmap, p);
    }

    /** The search loop of `allocate_page`: with fewer pages in use than the file has, it hits. */
    method FirstFree() returns (i: int)
      requires Valid() && allocatedPages < pageCount
      ensures 0 < i < pageCount && i !in alloc && forall j :: 0 <= j < i ==> j in alloc
    {
      FullBelow(alloc, pageCount);
      i := 0;
      while i < pageCount && Bit(bitmap, i)
        invariant 0 <= i <= pageCount
        invariant forall j :: 0 <= j < i ==> j in alloc
      {
        i := i + 1;
      }
    }

    /** Hands out the lowest page not in use, with its frame pinned once; none is left exactly when every
        page is in use. A page that was in use before is read from the file: if that fails, the page and
        the pinned frame stay taken although the caller gets neither. */
    method AllocatePage() returns (a: Allocation, page: int)
      requires Valid()
      modifies this
      ensures Valid()
      ensures a == if !old(Steady()) then Unreadable else if old(Free()) == 0 then NoneLeft else Allocated
      ensures a == NoneLeft ==> unchanged(this)
      ensures a != NoneLeft ==>
        && page !in old(alloc) && page > 0 && (forall j :: 0 <= j < page ==> j in old(alloc))
        && alloc == old(alloc) + {page} && Free() == old(Free()) - 1
        && pins == old(pins) + multiset{page} && resident == old(resident) + {page}
      ensures a == Allocated ==> Steady()
    {
      if allocatedPages < pageCount {
        page := FirstFree();
        MarkAllocated(page);
        GetThisPage(page);
        a := if stored then Allocated else Unreadable;
        return;
      }
      assert allocatedPages == pageCount && pageCount !in alloc && forall j :: 0 <= j < pageCount ==> j in alloc by {
        FullBelow(alloc, pageCount);
      }
      if pageCount >= 8 * |bitmap| {
        return NoneLeft, -1;
      }
      page := Grow();
      a := Allocated;
    }

    /** The page after the last one, with its frame pinned once. */
    method Grow() returns (page: int)
      requires Valid() && pageCount !in alloc && pageCount < 8 * |bitmap|
      modifies this
      ensures Valid() && page == old(pageCount) && pageCount == old(pageCount) + 1
      ensures alloc == old(alloc) + {page} && pins == old(pins) + multiset{page} && resident == old(resident) + {page}
    {
      page := pageCount;
      pageCount := pageCount + 1;
      MarkAllocated(page);
      resident, pins := resident + {page}, pins + multiset{page};
    }

    /** `dispose_page`: takes the frame once and gives page and frame back if nobody else holds it,
        which an assertion checks. A page without a frame is left allocated. */
    method DisposePage(p: int) returns (d: Disposal)
      requires Valid() && p > 0 && p in alloc
      modifies `allocatedPages, `bitmap, `alloc, `resident, `pins
      ensures Valid()
      ensures d == if p !in old(resident) then NotFound else if old(pins)[p] > 0 then StillPinned else Disposed
      ensures d == Disposed ==>
        alloc == old(alloc) - {p} && Free() == old(Free()) + 1 && pins == old(pins) && resident == old(resident) - {p}
      ensures d == StillPinned ==> alloc == old(alloc) && pins == old(pins) + multiset{p} && resident == old(resident)
      ensures d == NotFound ==> unchanged(this)
    {
      if p !in resident {
        return NotFound;
      }
      pins := pins + multiset{p};
      if pins[p] != 1 {
        return StillPinned;
      }
      Release(p);
      d := Disposed;
    }

    /** Page and frame are given back. */
    method Release(p: int)
      requires Valid() && p > 0 && p in alloc && pins[p] == 1
      modifies `allocatedPages, `bitmap, `alloc, `resident, `pins
      ensures Valid()
      ensures alloc == old(alloc) - {p} && pins == old(pins) - multiset{p} && resident == old(resident) - {p}
    {
      pins := pins - multiset{p};
      resident := resident - {p};
      MarkFree(p);
    }
  }
}
