/** Scanning a record file: pages by the allocation bitmap, slots by the bitmap of each page. */
module RecordScan {
  import opened Wrappers
  import opened Bits
  import opened Bitmaps
  import opened BufferPool
  import opened Records

  /** The condition filter of a scan, on a record and its data. */
  type Filter = (Rid, int) -> bool

  // ---- what a scan should deliver ----

  /** The live records of page `p` from slot `s` on that pass the filter. */
  ghost function SlotRids(cap: nat, p: int, page: RecordPage, keep: Filter, s: nat): seq<Rid>
    requires PageOk(cap, page)
    decreases cap - s
  {
    if s >= cap then []
    else
      var r := BPlusState.Rid(p, s);
      (if Bit(page.bitmap, s) && keep(r, page.slots[s]) then [r] else []) + SlotRids(cap, p, page, keep, s + 1)
  }

  /** The same for all pages from `p` up to `end`. */
  ghost function PageRids(cap: nat, pages: map<int, RecordPage>, keep: Filter, p: int, end: int): seq<Rid>
    requires PagesOk(cap, pages)
    decreases end - p
  {
    if p >= end then []
    else (if p in pages then SlotRids(cap, p, pages[p], keep, 0) else []) + PageRids(cap, pages, keep, p + 1, end)
  }

  ghost predicate Precedes(a: Rid, b: Rid) {
    a.page < b.page || (a.page == b.page && a.slot < b.slot)
  }

  ghost predicate InOrder(rs: seq<Rid>) {
    forall i, j :: 0 <= i < j < |rs| ==> Precedes(rs[i], rs[j])
  }

  lemma {:induction false} SlotRidsIn(cap: nat, p: int, page: RecordPage, keep: Filter, s: nat, r: Rid)
    requires PageOk(cap, page)
    ensures r in SlotRids(cap, p, page, keep, s) <==>
      r.page == p && s <= r.slot < cap && Bit(page.bitmap, r.slot) && keep(r, page.slots[r.slot])
    decreases cap - s
  {
    if s < cap {
      SlotRidsIn(cap, p, page, keep, s + 1, r);
    }
  }

  lemma {:induction false} SlotRidsOrder(cap: nat, p: int, page: RecordPage, keep: Filter, s: nat)
    requires PageOk(cap, page)
    ensures InOrder(SlotRids(cap, p, page, keep, s))
    decreases cap - s
  {
    if s < cap {
      SlotRidsOrder(cap, p, page, keep, s + 1);
      var rest := SlotRids(cap, p, page, keep, s + 1);
      forall i | 0 <= i < |rest|
        ensures Precedes(BPlusState.Rid(p, s), rest[i])
      {
        SlotRidsIn(cap, p, page, keep, s + 1, rest[i]);
      }
    }
  }

  lemma {:induction false} PageRidsIn(cap: nat, pages: map<int, RecordPage>, keep: Filter, p: int, end: int, r: Rid)
    requires PagesOk(cap, pages)
    ensures r in PageRids(cap, pages, keep, p, end) <==>
      p <= r.page < end && Live(cap, pages, r) && keep(r, DataAt(cap, pages, r))
    decreases end - p
  {
    if p < end {
      PageRidsIn(cap, pages, keep, p + 1, end, r);
      if p in pages {
        SlotRidsIn(cap, p, pages[p], keep, 0, r);
      }
    }
  }

  lemma {:induction false} PageRidsOrder(cap: nat, pages: map<int, RecordPage>, keep: Filter, p: int, end: int)
    requires PagesOk(cap, pages)
    ensures InOrder(PageRids(cap, pages, keep, p, end))
    decreases end - p
  {
    if p < end {
      PageRidsOrder(cap, pages, keep, p + 1, end);
      if p in pages {
        SlotRidsOrder(cap, p, pages[p], keep, 0);
        var a, b := SlotRids(cap, p, pages[p], keep, 0), PageRids(cap, pages, keep, p + 1, end);
        forall i, j | 0 <= i < |a| && 0 <= j < |b|
          ensures Precedes(a[i], b[j])
        {
          SlotRidsIn(cap, p, pages[p], keep, 0, a[i]);
          PageRidsIn(cap, pages, keep, p + 1, end, b[j]);
        }
        OrderedConcat(a, b);
      }
    }
  }

  lemma OrderedConcat(a: seq<Rid>, b: seq<Rid>)
    requires InOrder(a) && InOrder(b) && forall i, j :: 0 <= i < |a| && 0 <= j < |b| ==> Precedes(a[i], b[j])
    ensures InOrder(a + b)
  {
  }

  // ---- skipping ----

  /** Slots up to the next set bit contribute nothing. */
  lemma {:induction false} SkipSlots(cap: nat, p: int, page: RecordPage, keep: Filter, s: nat)
    requires PageOk(cap, page) && Fits(page.bitmap, cap)
    ensures var n := NextSet(page.bitmap, cap, s);
      SlotRids(cap, p, page, keep, s) == if n == -1 then [] else SlotRids(cap, p, page, keep, n)
    decreases cap - s
  {
    if s < cap && !Bit(page.bitmap, s) {
      SkipSlots(cap, p, page, keep, s + 1);
      SkipSlot(cap, p, page, keep, s);
    }
  }

  lemma SkipSlot(cap: nat, p: int, page: RecordPage, keep: Filter, s: nat)
    requires PageOk(cap, page) && Fits(page.bitmap, cap) && s < cap && !Bit(page.bitmap, s)
    ensures SlotRids(cap, p, page, keep, s) == SlotRids(cap, p, page, keep, s + 1)
    ensures NextSet(page.bitmap, cap, s) == NextSet(page.bitmap, cap, s + 1)
  {
    var rest := SlotRids(cap, p, page, keep, s + 1);
    assert [] + rest == rest;
  }

  /** Pages up to the next allocated one contribute nothing. */
  lemma {:induction false} SkipPages(cap: nat, pages: map<int, RecordPage>, keep: Filter, p: int, q: int, end: int)
    requires PagesOk(cap, pages) && p <= q && forall k :: p <= k < q ==> k !in pages
    ensures PageRids(cap, pages, keep, p, end) == PageRids(cap, pages, keep, if q < end then q else end, end)
    decreases q - p
  {
    if p < q && p < end {
      SkipPages(cap, pages, keep, p + 1, q, end);
    }
  }

  // ---- the page iterator ----

  /** `p` is the first allocated page after `current`, or -1 if there is none. */
  ghost predicate IsNext(alloc: set<int>, current: int, end: int, p: int) {
    && (p == -1 || (p in alloc && current < p < end))
    && forall q :: q in alloc && current < q ==> p != -1 && p <= q
  }

  /** `BufferPoolIterator::next` and `has_next`: the next allocated page, or -1. The current page's own
      bit makes the search sound. */
  method NextPage(pool: FileBufferPool, current: int) returns (p: int)
    requires pool.Valid() && current in pool.alloc
    ensures IsNext(pool.alloc, current, pool.pageCount, p)
  {
    assert Bit(pool.bitmap, current);
    SoundAfterSet(pool.bitmap, pool.pageCount, current);
    p := NextSettedBit(pool.bitmap, pool.pageCount, current + 1);
    NextAllocated(pool.bitmap, pool.alloc, pool.pageCount, current);
  }

  lemma NextAllocated(bitmap: seq<bv8>, alloc: set<int>, end: nat, current: nat)
    requires Fits(bitmap, end) && forall q :: q in alloc ==> 0 <= q < end && q < 8 * |bitmap| && Bit(bitmap, q)
    requires forall q :: 0 <= q < 8 * |bitmap| && Bit(bitmap, q) ==> q in alloc
    ensures IsNext(alloc, current, end, NextSet(bitmap, end, current + 1))
  {
    NextSetIs(bitmap, end, current + 1);
  }

  /** `init_free_pages`: opening a file finds exactly the pages with room. */
  method InitFreePages(h: RecordFileHandler)
    requires h.cap >= 1 && h.pool.Valid() && h.pool.alloc == {0} + h.pages.Keys && 0 !in h.pages && PagesOk(h.cap, h.pages)
    modifies h`freePages
    ensures FileOk(h.cap, h.pages, h.freePages, h.pool.alloc) && (h.pool.Steady() ==> h.Valid())
    ensures h.freePages == set p | p in h.pages && !Full(h.cap, h.pages[p])
  {
    var found, current := {}, 0;
    ghost var pages, alloc := h.pages, h.pool.alloc;
    var p := NextPage(h.pool, current);
    while p != -1
      invariant current in alloc && current < h.pool.pageCount && IsNext(alloc, current, h.pool.pageCount, p)
      invariant found == Roomy(h.cap, pages, current)
      decreases h.pool.pageCount - current
    {
      RoomyUpTo(h.cap, pages, current, p);
      if !Full(h.cap, h.pages[p]) {
        found := found + {p};
      }
      current := p;
      p := NextPage(h.pool, current);
    }
    RoomyOk(h.cap, h.pages, h.pool.alloc, found, current);
    h.freePages := found;
  }

  lemma RoomyOk(cap: nat, pages: map<int, RecordPage>, alloc: set<int>, found: set<int>, last: int)
    requires cap >= 1 && alloc == {0} + pages.Keys && 0 !in pages && PagesOk(cap, pages)
    requires found == Roomy(cap, pages, last) && forall p :: p in pages ==> p <= last
    ensures FileOk(cap, pages, found, alloc) && found == set p | p in pages && !Full(cap, pages[p])
  {
  }

  ghost function Roomy(cap: nat, pages: map<int, RecordPage>, upTo: int): set<int> {
    set p | p in pages && p <= upTo && !Full(cap, pages[p])
  }

  lemma RoomyUpTo(cap: nat, pages: map<int, RecordPage>, current: int, p: int)
    requires p in pages && current < p && forall q :: q in pages && current < q ==> p <= q
    ensures Roomy(cap, pages, p) == Roomy(cap, pages, current) + if Full(cap, pages[p]) then {} else {p}
  {
  }

  /** The next live slot of a page, from its start or after a live slot. */
  method SlotFrom(cap: nat, p: int, page: RecordPage, keep: Filter, s: nat) returns (slot: int)
    requires PageOk(cap, page) && s <= cap && (s == 0 || Bit(page.bitmap, s - 1))
    ensures slot == -1 ==> SlotRids(cap, p, page, keep, s) == []
    ensures slot != -1 ==> s <= slot < cap && Bit(page.bitmap, slot)
    ensures slot != -1 ==> SlotRids(cap, p, page, keep, s) == SlotRids(cap, p, page, keep, slot)
  {
    if s > 0 {
      SoundAfterSet(page.bitmap, cap, s - 1);
    }
    SkipSlots(cap, p, page, keep, s);
    NextSetIs(page.bitmap, cap, s);
    slot := NextSettedBit(page.bitmap, cap, s);
  }

  /** Page `p` is the next one after `was`. */
  lemma ToPage(cap: nat, pages: map<int, RecordPage>, keep: Filter, was: int, p: int, end: int)
    requires PagesOk(cap, pages) && was < p < end && p in pages && forall k :: k in pages && was < k ==> p <= k
    ensures PageRids(cap, pages, keep, was + 1, end) == SlotRids(cap, p, pages[p], keep, 0) + PageRids(cap, pages, keep, p + 1, end)
  {
    SkipPages(cap, pages, keep, was + 1, p, end);
  }

  /** The first live slot of page `p`, the next one after `was`: what is left from there on is what was
      left after `was`. */
  method FirstSlot(cap: nat, pages: map<int, RecordPage>, keep: Filter, ghost was: int, p: int, ghost end: int) returns (slot: int)
    requires PagesOk(cap, pages) && was < p < end && p in pages && forall k :: k in pages && was < k ==> p <= k
    ensures slot == -1 || (0 <= slot < cap && Live(cap, pages, BPlusState.Rid(p, slot)))
    ensures PageRids(cap, pages, keep, was + 1, end) ==
      (if slot == -1 then [] else SlotRids(cap, p, pages[p], keep, slot)) + PageRids(cap, pages, keep, p + 1, end)
  {
    ToPage(cap, pages, keep, was, p, end);
    assert PageOk(cap, pages[p]);
    slot := SlotFrom(cap, p, pages[p], keep, 0);
  }

  // ---- the scanner ----

  datatype Record = Record(rid: Rid, data: int)

  ghost function First(r: Option<Record>): seq<Rid> {
    if r.None? then [] else [r.value.rid]
  }

  /** `RecordFileScanner` without a transaction, over a file that does not change meanwhile. */
  class RecordFileScanner {
    const file: RecordFileHandler
    const keep: Filter
    var current: int           // the page iterator
    var inPage: bool           // a page has been opened
    var nextSlot: int          // the slot iterator in that page, -1 at its end
    var next: Option<Record>   // the record that the next call returns

    ghost predicate Positioned()
      reads `current, `inPage, `nextSlot, file, file.pool
    {
      && file.Valid() && current in file.pool.alloc
      && (inPage ==> current in file.pages)
      && (inPage && nextSlot != -1 ==> 0 <= nextSlot < file.cap && Live(file.cap, file.pages, BPlusState.Rid(current, nextSlot)))
    }

    /** What is left in the current page. */
    ghost function InPage(): seq<Rid>
      reads `current, `inPage, `nextSlot, file, file.pool
      requires Positioned()
    {
      if !inPage || nextSlot == -1 then []
      else SlotRids(file.cap, current, file.pages[current], keep, nextSlot)
    }

    ghost function InLaterPages(): seq<Rid>
      reads `current, `inPage, `nextSlot, file, file.pool
      requires Positioned()
    {
      PageRids(file.cap, file.pages, keep, current + 1, file.pool.pageCount)
    }

    /** The records still to come, in order. */
    ghost function Upcoming(): seq<Rid>
      reads this, file, file.pool
      requires Positioned()
    {
      First(next) + (InPage() + InLaterPages())
    }

    ghost predicate Valid()
      reads this, file, file.pool
    {
      && Positioned() && (next.None? ==> InPage() + InLaterPages() == [])
      && (next.Some? ==> IsRecord(next.value))
    }

    ghost predicate IsRecord(r: Record)
      reads file, file.pool
    {
      Live(file.cap, file.pages, r.rid) && r.data == DataAt(file.cap, file.pages, r.rid)
    }

    constructor (f: RecordFileHandler, filter: Filter)
      requires f.Valid()
      ensures Positioned() && file == f && keep == filter
      ensures !inPage && current == 0 && next.None?
    {
      file, keep := f, filter;
      current, inPage, nextSlot, next := 0, false, -1, None;
    }

    /** `RecordPageIterator::next`: the slot after a set one; the set bit makes the search sound. */
    method NextSlot() returns (r: Record)
      requires Positioned() && inPage && nextSlot != -1
      modifies `nextSlot
      ensures Positioned() && r.rid == BPlusState.Rid(current, old(nextSlot)) && IsRecord(r)
      ensures old(InPage()) == (if keep(r.rid, r.data) then [r.rid] else []) + InPage()
      ensures nextSlot == -1 || nextSlot > old(nextSlot)
      ensures InLaterPages() == old(InLaterPages())
    {
      var page := file.pages[current];
      r := Record(BPlusState.Rid(current, nextSlot), page.slots[nextSlot]);
      nextSlot := SlotFrom(file.cap, current, page, keep, nextSlot + 1);
    }

    /** `fetch_next_record_in_page`. */
    method FetchInPage(ghost here: seq<Rid>, ghost later: seq<Rid>) returns (rc: Rc)
      requires Positioned() && inPage && InPage() == here && InLaterPages() == later
      modifies `nextSlot, `next
      ensures Positioned() && rc == if here == [] then RecordEof else Success
      ensures rc == Success ==> next.Some? && IsRecord(next.value) && here == [next.value.rid] + InPage()
      ensures rc == RecordEof ==> next.None? && InPage() == []
      ensures InLaterPages() == later
    {
      while nextSlot != -1
        invariant Positioned() && InPage() == here && InLaterPages() == later
        decreases if nextSlot == -1 then 0 else 1 + file.cap - nextSlot
      {
        var r := NextSlot();
        if keep(r.rid, r.data) {
          next := Some(r);
          return Success;
        }
      }
      next := None;
      return RecordEof;
    }

    /** Opens page `p` at its first record. */
    method OpenPage(p: int, ghost left: seq<Rid>)
      requires Positioned() && InLaterPages() == left && IsNext(file.pool.alloc, current, file.pool.pageCount, p) && p != -1
      modifies `current, `inPage, `nextSlot
      ensures Positioned() && inPage && current == p
      ensures InPage() + InLaterPages() == left
    {
      ghost var end := file.pool.pageCount;
      var slot := FirstSlot(file.cap, file.pages, keep, current, p, end);
      current, inPage, nextSlot := p, true, slot;
    }

    /** The end of the scan. */
    method Finish()
      requires Positioned() && InPage() == [] && InLaterPages() == []
      modifies `next
      ensures Valid() && Upcoming() == []
    {
      next := None;
    }

    /** One turn of the loop of `fetch_next_record`: the next record comes from page `p`, or that page has none. */
    method TryPage(p: int, ghost left: seq<Rid>) returns (rc: Rc)
      requires Positioned() && InLaterPages() == left && IsNext(file.pool.alloc, current, file.pool.pageCount, p) && p != -1
      modifies this
      ensures Positioned() && current == p && (rc == Success || rc == RecordEof)
      ensures rc == Success ==> Valid() && Upcoming() == left
      ensures rc == RecordEof ==> InPage() == [] && InLaterPages() == left
    {
      OpenPage(p, left);
      rc := FetchFirst(InPage(), InLaterPages());
    }

    /** `fetch_next_record_in_page` together with the pages after this one. */
    method FetchFirst(ghost here: seq<Rid>, ghost later: seq<Rid>) returns (rc: Rc)
      requires Positioned() && inPage && InPage() == here && InLaterPages() == later
      modifies `nextSlot, `next
      ensures Positioned() && (rc == Success || rc == RecordEof)
      ensures rc == Success ==> Valid() && Upcoming() == here + later
      ensures rc == RecordEof ==> InPage() == [] && InLaterPages() == here + later
    {
      rc := FetchInPage(here, later);
      if rc == Success {
        Regroup(next.value.rid, InPage(), later);
      }
      assert [] + later == later;
    }

    /** The next page of the file after the current one, or -1. */
    method Advance(ghost left: seq<Rid>) returns (p: int)
      requires Positioned() && InPage() == [] && InLaterPages() == left
      ensures Positioned() && InPage() == [] && InLaterPages() == left
      ensures IsNext(file.pool.alloc, current, file.pool.pageCount, p)
    {
      p := NextPage(file.pool, current);
    }

    /** The loop of `fetch_next_record` over the later pages. */
    method FetchInLaterPages()
      requires Positioned() && InPage() == []
      modifies this
      ensures Valid() && Upcoming() == old(InLaterPages())
    {
      ghost var left := InLaterPages();
      var p := Advance(left);
      while p != -1
        invariant Positioned() && InPage() == [] && InLaterPages() == left
        invariant IsNext(file.pool.alloc, current, file.pool.pageCount, p)
        decreases file.pool.pageCount - current, p
      {
        var rc := TryPage(p, left);
        if rc == Success {
          return;
        }
        p := Advance(left);
      }
      NoMorePages(file.cap, file.pages, keep, current + 1, file.pool.pageCount);
      Finish();
    }

    /** `fetch_next_record`: the first of the records still to come becomes the next one. */
    method FetchNext()
      requires Positioned()
      modifies this
      ensures Valid() && Upcoming() == old(InPage() + InLaterPages())
    {
      if inPage {
        var rc := FetchFirst(InPage(), InLaterPages());
        if rc == Success {
          return;
        }
        assert [] + InLaterPages() == InLaterPages();
      }
      FetchInLaterPages();
    }

    /** `has_next`: there is a record to come. */
    predicate HasNext()
      reads this, file, file.pool
      requires Valid()
      ensures HasNext() <==> Upcoming() != []
    {
      next.Some?
    }

    /** `next`. */
    method Next() returns (r: Record)
      requires Valid() && Upcoming() != []
      modifies this
      ensures Valid() && [r.rid] + Upcoming() == old(Upcoming())
      ensures Live(file.cap, file.pages, r.rid) && r.data == DataAt(file.cap, file.pages, r.rid)
    {
      r := next.value;
      FetchNext();
    }
  }

  lemma Regroup(r: Rid, a: seq<Rid>, b: seq<Rid>)
    ensures [r] + a + b == [r] + (a + b)
  {
  }

  lemma NoMorePages(cap: nat, pages: map<int, RecordPage>, keep: Filter, p: int, end: int)
    requires PagesOk(cap, pages) && forall k :: k in pages ==> k < p
    ensures PageRids(cap, pages, keep, p, end) == []
  {
    SkipPages(cap, pages, keep, p, if p < end then end else p, end);
  }

  /** The data of the records in a list. */
  ghost predicate Carries(cap: nat, pages: map<int, RecordPage>, rs: seq<Record>) {
    forall i :: 0 <= i < |rs| ==> Live(cap, pages, rs[i].rid) && rs[i].data == DataAt(cap, pages, rs[i].rid)
  }

  ghost function RidsOf(rs: seq<Record>): seq<Rid> {
    seq(|rs|, i requires 0 <= i < |rs| => rs[i].rid)
  }

  /** Calling `next` while `has_next` holds. */
  method Drain(sc: RecordFileScanner) returns (rs: seq<Record>)
    requires sc.Valid()
    modifies sc
    ensures RidsOf(rs) == old(sc.Upcoming()) && Carries(sc.file.cap, sc.file.pages, rs)
  {
    rs := [];
    ghost var all := sc.Upcoming();
    assert RidsOf(rs) + all == all;
    while sc.HasNext()
      invariant sc.Valid() && RidsOf(rs) + sc.Upcoming() == all && Carries(sc.file.cap, sc.file.pages, rs)
      decreases |sc.Upcoming()|
    {
      rs := TakeNext(sc, rs, all);
    }
    assert RidsOf(rs) + [] == RidsOf(rs);
  }

  method TakeNext(sc: RecordFileScanner, rs: seq<Record>, ghost all: seq<Rid>) returns (more: seq<Record>)
    requires sc.Valid() && sc.HasNext() && RidsOf(rs) + sc.Upcoming() == all && Carries(sc.file.cap, sc.file.pages, rs)
    modifies sc
    ensures sc.Valid() && RidsOf(more) + sc.Upcoming() == all && Carries(sc.file.cap, sc.file.pages, more)
    ensures |sc.Upcoming()| < |old(sc.Upcoming())|
  {
    var r := sc.Next();
    Append(rs, r, sc.Upcoming());
    CarriesPlus(sc.file.cap, sc.file.pages, rs, r);
    more := rs + [r];
  }

  /** A whole scan: every live record that passes the filter, once, with its data, in page and slot order. */
  method ScanAll(file: RecordFileHandler, keep: Filter) returns (rs: seq<Record>)
    requires file.Valid()
    ensures Carries(file.cap, file.pages, rs) && InOrder(RidsOf(rs))
    ensures forall r :: r in RidsOf(rs) <==> Live(file.cap, file.pages, r) && keep(r, DataAt(file.cap, file.pages, r))
  {
    var sc := new RecordFileScanner(file, keep);
    ghost var all := PageRids(file.cap, file.pages, keep, 1, file.pool.pageCount);
    assert [] + all == all;
    sc.FetchNext();
    rs := Drain(sc);
    AllRids(file, keep);
  }

  /** Live records lie on allocated pages, so the scan's page range covers them all. */
  lemma AllRids(file: RecordFileHandler, keep: Filter)
    requires file.Valid()
    ensures var all := PageRids(file.cap, file.pages, keep, 1, file.pool.pageCount);
      && InOrder(all)
      && forall r :: r in all <==> Live(file.cap, file.pages, r) && keep(r, DataAt(file.cap, file.pages, r))
  {
    PageRidsOrder(file.cap, file.pages, keep, 1, file.pool.pageCount);
    assert forall p :: p in file.pages ==> p in file.pool.alloc && 1 <= p < file.pool.pageCount;
    forall r: Rid
      ensures r in PageRids(file.cap, file.pages, keep, 1, file.pool.pageCount) <==>
        Live(file.cap, file.pages, r) && keep(r, DataAt(file.cap, file.pages, r))
    {
      PageRidsIn(file.cap, file.pages, keep, 1, file.pool.pageCount, r);
    }
  }

  lemma CarriesPlus(cap: nat, pages: map<int, RecordPage>, rs: seq<Record>, r: Record)
    requires Carries(cap, pages, rs) && Live(cap, pages, r.rid) && r.data == DataAt(cap, pages, r.rid)
    ensures Carries(cap, pages, rs + [r])
  {
  }

  lemma Append(rs: seq<Record>, r: Record, rest: seq<Rid>)
    ensures RidsOf(rs) + ([r.rid] + rest) == RidsOf(rs + [r]) + rest
  {
    assert RidsOf(rs + [r]) == RidsOf(rs) + [r.rid];
  }
}
