/** The record file: slotted pages, the set of pages with room, and the scan over all records. */
module Records {
  import opened Wrappers
  import opened Bits
  import opened Bitmaps
  import opened BufferPool
  import BPlusState

  type Rid = BPlusState.Rid

  datatype Rc = Success | NoMem | NoBuf | InvalidArgument | InvalidRid | NotExist | IoErrRead | RecordEof

  /** A data page: the record count of its header, the slot bitmap and the record bytes. */
  datatype RecordPage = RecordPage(recordNum: int, bitmap: seq<bv8>, slots: seq<int>)

  // ---- counting slots ----

  ghost function CountSet(bs: seq<bv8>, n: nat): nat
    requires n <= 8 * |bs|
  {
    if n == 0 then 0 else CountSet(bs, n - 1) + if Bit(bs, n - 1) then 1 else 0
  }

  lemma {:induction false} CountFull(bs: seq<bv8>, n: nat)
    requires n <= 8 * |bs|
    ensures CountSet(bs, n) <= n
    ensures CountSet(bs, n) == n <==> forall i :: 0 <= i < n ==> Bit(bs, i)
  {
    if n > 0 {
      CountFull(bs, n - 1);
    }
  }

  lemma {:induction false} CountSame(a: seq<bv8>, b: seq<bv8>, n: nat)
    requires |a| == |b| && n <= 8 * |a| && forall i :: 0 <= i < n ==> (Bit(a, i) <==> Bit(b, i))
    ensures CountSet(a, n) == CountSet(b, n)
  {
    if n > 0 {
      CountSame(a, b, n - 1);
    }
  }

  /** Changing one bit changes the count by one. */
  lemma {:induction false} CountChange(a: seq<bv8>, b: seq<bv8>, n: nat, k: nat)
    requires |a| == |b| && k < n <= 8 * |a| && !Bit(a, k) && Bit(b, k)
    requires forall i :: 0 <= i < n && i != k ==> (Bit(a, i) <==> Bit(b, i))
    ensures CountSet(b, n) == CountSet(a, n) + 1
  {
    if k == n - 1 {
      CountSame(a, b, n - 1);
    } else {
      CountChange(a, b, n - 1, k);
    }
  }

  lemma {:induction false} CountZero(bs: seq<bv8>, n: nat)
    requires n <= 8 * |bs| && forall i :: 0 <= i < |bs| ==> bs[i] == 0
    ensures CountSet(bs, n) == 0
  {
    if n > 0 {
      CountZero(bs, n - 1);
      ZeroByte(bs[(n - 1) / 8]);
    }
  }

  // ---- pages ----

  ghost predicate PageOk(cap: nat, p: RecordPage) {
    && |p.bitmap| == ByteCount(cap) && cap <= 8 * |p.bitmap| && |p.slots| == cap
    && p.recordNum == CountSet(p.bitmap, cap)
  }

  predicate Full(cap: nat, p: RecordPage) {
    p.recordNum >= cap
  }

  function EmptyPage(cap: nat): RecordPage {
    RecordPage(0, seq(ByteCount(cap), _ => 0), seq(cap, _ => 0))
  }

  lemma EmptyPageOk(cap: nat)
    ensures PageOk(cap, EmptyPage(cap)) && forall s :: 0 <= s < cap ==> !Bit(EmptyPage(cap).bitmap, s)
  {
    var p := EmptyPage(cap);
    BytesCover(cap, |p.bitmap|);
    CountZero(p.bitmap, cap);
    forall s | 0 <= s < cap
      ensures !Bit(p.bitmap, s)
    {
      ZeroByte(p.bitmap[s / 8]);
    }
  }

  /** `RecordPageHandler::insert_record`: the first free slot takes the record; a full page refuses. */
  method InsertInPage(cap: nat, p: RecordPage, data: int) returns (rc: Rc, r: RecordPage, slot: int)
    requires PageOk(cap, p)
    ensures PageOk(cap, r) && rc == if Full(cap, p) then NoMem else Success
    ensures rc != Success ==> r == p
    ensures rc == Success ==>
      && 0 <= slot < cap && !Bit(p.bitmap, slot) && (forall s :: 0 <= s < slot ==> Bit(p.bitmap, s))
      && (forall s :: 0 <= s < cap ==> (Bit(r.bitmap, s) <==> s == slot || Bit(p.bitmap, s)))
      && r.slots == p.slots[slot := data] && r.recordNum == p.recordNum + 1
  {
    CountFull(p.bitmap, cap);
    if p.recordNum == cap {
      return NoMem, p, -1;
    }
    NextClearIs(p.bitmap, cap, 0);
    SoundClearAtByte(p.bitmap, cap, 0);
    slot := NextUnsettedBit(p.bitmap, cap, 0);
    SetBitAt(p.bitmap, slot);
    CountChange(p.bitmap, SetBit(p.bitmap, slot), cap, slot);
    r := RecordPage(p.recordNum + 1, SetBit(p.bitmap, slot), p.slots[slot := data]);
    rc := Success;
  }

  /** `RecordPageHandler::delete_record`. */
  method DeleteInPage(cap: nat, p: RecordPage, slot: int) returns (rc: Rc, r: RecordPage)
    requires PageOk(cap, p) && slot >= 0
    ensures PageOk(cap, r)
    ensures rc == if slot >= cap then InvalidArgument else if Bit(p.bitmap, slot) then Success else NotExist
    ensures rc != Success ==> r == p
    ensures rc == Success ==> r.slots == p.slots && r.recordNum == p.recordNum - 1
    ensures rc == Success ==> forall s :: 0 <= s < cap ==> (Bit(r.bitmap, s) <==> s != slot && Bit(p.bitmap, s))
  {
    if slot >= cap {
      return InvalidArgument, p;
    }
    if !Bit(p.bitmap, slot) {
      return NotExist, p;
    }
    ClearBitAt(p.bitmap, slot);
    CountChange(ClearBit(p.bitmap, slot), p.bitmap, cap, slot);
    r := RecordPage(p.recordNum - 1, ClearBit(p.bitmap, slot), p.slots);
    rc := Success;
  }

  // ---- the file ----

  ghost predicate Live(cap: nat, pages: map<int, RecordPage>, r: Rid) {
    && r.page in pages && 0 <= r.slot < cap && cap <= 8 * |pages[r.page].bitmap| && |pages[r.page].slots| == cap
    && Bit(pages[r.page].bitmap, r.slot)
  }

  ghost function DataAt(cap: nat, pages: map<int, RecordPage>, r: Rid): int
    requires Live(cap, pages, r)
  {
    pages[r.page].slots[r.slot]
  }

  ghost predicate PagesOk(cap: nat, pages: map<int, RecordPage>) {
    forall p {:trigger PageOk(cap, pages[p])} :: p in pages ==> PageOk(cap, pages[p])
  }

  /** Record `x` is live in both with the same data, or in neither. */
  ghost predicate SameRecord(cap: nat, before: map<int, RecordPage>, after: map<int, RecordPage>, x: Rid) {
    && (Live(cap, after, x) <==> Live(cap, before, x))
    && (Live(cap, before, x) && Live(cap, after, x) ==> DataAt(cap, after, x) == DataAt(cap, before, x))
  }

  /** `r` joins the live records with the given data; nothing else changes. */
  ghost predicate Added(cap: nat, before: map<int, RecordPage>, after: map<int, RecordPage>, r: Rid, data: int) {
    && !Live(cap, before, r) && Live(cap, after, r) && DataAt(cap, after, r) == data
    && (forall x: Rid :: x != r ==> SameRecord(cap, before, after, x))
  }

  ghost predicate Dropped(cap: nat, before: map<int, RecordPage>, after: map<int, RecordPage>, r: Rid) {
    && Live(cap, before, r) && !Live(cap, after, r)
    && (forall x: Rid :: x != r ==> SameRecord(cap, before, after, x))
  }

  /** Outside its header page the file has exactly the data pages, and every page with room is known. */
  ghost predicate FileOk(cap: nat, pages: map<int, RecordPage>, freePages: set<int>, alloc: set<int>) {
    && cap >= 1 && alloc == {0} + pages.Keys && 0 !in pages && PagesOk(cap, pages) && freePages <= pages.Keys
    && forall p :: p in pages && !Full(cap, pages[p]) ==> p in freePages
  }

  /** Page `p`, which is known to have room or is so from now on, may change. */
  lemma ChangedOk(cap: nat, before: map<int, RecordPage>, after: map<int, RecordPage>, free: set<int>, now: set<int>, alloc: set<int>, p: int)
    requires FileOk(cap, before, free, alloc) && p in before && now == free + {p}
    requires PagesOk(cap, after) && after.Keys == before.Keys && forall q :: q in after && q != p ==> after[q] == before[q]
    ensures FileOk(cap, after, now, alloc)
  {
  }

  lemma AddedOk(cap: nat, before: map<int, RecordPage>, free: set<int>, alloc: set<int>, p: int)
    requires FileOk(cap, before, free, alloc) && p !in alloc
    ensures FileOk(cap, before[p := EmptyPage(cap)], free + {p}, alloc + {p})
  {
    EmptyPageOk(cap);
  }

  lemma FullOk(cap: nat, pages: map<int, RecordPage>, free: set<int>, alloc: set<int>, p: int)
    requires FileOk(cap, pages, free, alloc) && p in pages && Full(cap, pages[p])
    ensures FileOk(cap, pages, free - {p}, alloc)
  {
  }

  lemma InsertedAt(cap: nat, before: map<int, RecordPage>, after: map<int, RecordPage>, r: Rid, data: int)
    requires r.page in before && after.Keys == before.Keys && PageOk(cap, before[r.page]) && PageOk(cap, after[r.page])
    requires 0 <= r.slot < cap && !Bit(before[r.page].bitmap, r.slot)
    requires forall s :: 0 <= s < cap ==> (Bit(after[r.page].bitmap, s) <==> s == r.slot || Bit(before[r.page].bitmap, s))
    requires after[r.page].slots == before[r.page].slots[r.slot := data]
    requires forall q :: q in after && q != r.page ==> after[q] == before[q]
    ensures Added(cap, before, after, r, data)
  {
  }

  method Smallest(s: set<int>) returns (m: int)
    requires s != {}
    ensures m in s && forall x :: x in s ==> m <= x
  {
    ghost var least := Least(s);
    m :| m in s && forall x :: x in s ==> m <= x;
  }

  class RecordFileHandler {
    const cap: nat
    const pool: FileBufferPool
    var pages: map<int, RecordPage>
    var freePages: set<int>

    /** No page of a record file is ever given back, so none waits to be used again. */
    ghost predicate Valid()
      reads this, pool
    {
      pool.Valid() && pool.Steady() && FileOk(cap, pages, freePages, pool.alloc)
    }

    constructor (capacity: nat, bp: FileBufferPool)
      requires capacity >= 1 && bp.Valid() && bp.alloc == {0} && bp.Steady()
      ensures Valid() && pages == map[] && pool == bp && cap == capacity
    {
      cap, pool, pages, freePages := capacity, bp, map[], {};
    }

    /** The search loop of `insert_record`: full pages leave the set until a page with room comes up. */
    method FindRoom() returns (found: bool, p: int)
      requires Valid()
      modifies `freePages, pool`pins, pool`resident
      ensures Valid()
      ensures found ==> p in pages && !Full(cap, pages[p]) && pool.pins == old(pool.pins) + multiset{p}
      ensures !found ==> (forall q :: q in pages ==> Full(cap, pages[q])) && pool.pins == old(pool.pins)
    {
      ghost var base := pool.pins;
      while freePages != {}
        invariant Valid() && pool.pins == base
        decreases |freePages|
      {
        p := Smallest(freePages);
        found := HasRoom(p);
        if found {
          return;
        }
      }
      return false, -1;
    }

    /** Looks at a page that may have room: a full one leaves the set. */
    method HasRoom(p: int) returns (room: bool)
      requires Valid() && p in freePages
      modifies `freePages, pool`pins, pool`resident
      ensures Valid() && p in pages && (room <==> !Full(cap, pages[p]))
      ensures room ==> freePages == old(freePages) && pool.pins == old(pool.pins) + multiset{p}
      ensures !room ==> freePages == old(freePages) - {p} && pool.pins == old(pool.pins)
    {
      pool.GetThisPage(p);
      room := !Full(cap, pages[p]);
      if !room {
        pool.UnpinPage(p);
        FullOk(cap, pages, freePages, pool.alloc, p);
        freePages := freePages - {p};
      }
    }

    /** A new page, pinned once and known to have room. */
    method NewPage() returns (ok: bool, p: int)
      requires Valid()
      modifies this, pool
      ensures Valid() && (ok <==> old(pool.Free()) != 0)
      ensures !ok ==> pages == old(pages) && pool.pins == old(pool.pins)
      ensures ok ==>
        && p !in old(pages) && pages == old(pages)[p := EmptyPage(cap)] && pool.pins == old(pool.pins) + multiset{p}
    {
      ghost var alloc := pool.alloc;
      ok, p := AllocateData();
      if !ok {
        return;
      }
      AddedOk(cap, pages, freePages, alloc, p);
      pages := pages[p := EmptyPage(cap)];
      freePages := freePages + {p};
    }

    /** `allocate_page` with the pin and unpin around initializing the page. */
    method AllocateData() returns (ok: bool, p: int)
      requires pool.Valid() && pool.Steady()
      modifies pool
      ensures pool.Valid() && pool.Steady() && (ok <==> old(pool.Free()) != 0)
      ensures !ok ==> pool.alloc == old(pool.alloc) && pool.pins == old(pool.pins)
      ensures ok ==> p !in old(pool.alloc) && pool.alloc == old(pool.alloc) + {p} && p > 0
      ensures ok ==> pool.pins == old(pool.pins) + multiset{p}
    {
      var a;
      a, p := pool.AllocatePage();
      ok := a == Allocated;
      if !ok {
        return;
      }
      pool.GetThisPage(p);
      pool.UnpinPage(p);
    }

    /** Puts the record in page `p`, which the caller has pinned, and unpins it. */
    method InsertAt(p: int, data: int) returns (r: Rid)
      requires Valid() && p in pages && !Full(cap, pages[p]) && p in pool.pins
      modifies this, pool`pins
      ensures Valid() && Added(cap, old(pages), pages, r, data) && pages.Keys == old(pages).Keys && r.page == p
      ensures pool.pins == old(pool.pins) - multiset{p}
    {
      ghost var before := pages;
      var rc, page, slot := InsertInPage(cap, pages[p], data);
      r := BPlusState.Rid(p, slot);
      pages := pages[p := page];
      InsertedAt(cap, before, pages, r, data);
      ChangedOk(cap, before, pages, freePages, freePages, pool.alloc, p);
      pool.UnpinPage(p);
    }

    /** `insert_record`: a new page is allocated only when every page is full, and the insertion fails
        only if that is not possible. */
    method InsertRecord(data: int) returns (rc: Rc, r: Rid)
      requires Valid()
      modifies this, pool
      ensures Valid() && pool.pins == old(pool.pins)
      ensures rc == if (forall p :: p in old(pages) ==> Full(cap, old(pages)[p])) && old(pool.Free()) == 0 then NoBuf else Success
      ensures rc == NoBuf ==> pages == old(pages)
      ensures rc == Success ==> Added(cap, old(pages), pages, r, data)
      ensures rc == Success && r.page !in old(pages) ==> forall p :: p in old(pages) ==> Full(cap, old(pages)[p])
    {
      var ok, p := PageWithRoom();
      if !ok {
        return NoBuf, BPlusState.Rid(-1, -1);
      }
      ghost var between := pages;
      r := InsertAt(p, data);
      NewPageAdds(cap, old(pages), between, pages, r, data);
      rc := Success;
    }

    /** A page with room, pinned: an old one if there is any, else a new one. */
    method PageWithRoom() returns (ok: bool, p: int)
      requires Valid()
      modifies this, pool
      ensures Valid() && forall x: Rid :: SameRecord(cap, old(pages), pages, x)
      ensures ok <==> !((forall p :: p in old(pages) ==> Full(cap, old(pages)[p])) && old(pool.Free()) == 0)
      ensures !ok ==> pages == old(pages) && pool.pins == old(pool.pins)
      ensures ok ==> p in pages && !Full(cap, pages[p]) && pool.pins == old(pool.pins) + multiset{p}
      ensures ok && p !in old(pages) ==> forall p :: p in old(pages) ==> Full(cap, old(pages)[p])
    {
      ok, p := FindRoom();
      if !ok {
        assert forall x: Rid :: SameRecord(cap, pages, pages, x);
        ok, p := NewPage();
        if ok {
          EmptyPageAdds(cap, old(pages), pages, p);
        }
      }
    }

    /** `delete_record`: the slot is free again and its page has room. A page that the file never had
        cannot be read. */
    method DeleteRecord(r: Rid) returns (rc: Rc)
      requires Valid() && r.page != 0 && r.slot >= 0
      modifies this, pool`pins, pool`resident
      ensures Valid() && pool.pins == old(pool.pins)
      ensures rc == if r.page !in old(pages) then IoErrRead else if r.slot >= cap then InvalidArgument
                    else if Live(cap, old(pages), r) then Success else NotExist
      ensures rc == Success ==> Dropped(cap, old(pages), pages, r)
      ensures rc != Success ==> pages == old(pages)
    {
      if r.page !in pages {
        return IoErrRead;
      }
      ghost var before, free, pins := pages, freePages, pool.pins;
      pool.GetThisPage(r.page);
      rc := DeleteAt(r);
      pool.UnpinPage(r.page);
      assert pins + multiset{r.page} - multiset{r.page} == pins;
      if rc == Success {
        freePages := freePages + {r.page};
        ChangedOk(cap, before, pages, free, freePages, pool.alloc, r.page);
      }
    }

    method DeleteAt(r: Rid) returns (rc: Rc)
      requires PagesOk(cap, pages) && r.page in pages && r.slot >= 0
      modifies `pages
      ensures PagesOk(cap, pages) && pages.Keys == old(pages).Keys
      ensures rc == if r.slot >= cap then InvalidArgument else if Live(cap, old(pages), r) then Success else NotExist
      ensures rc == Success ==> Dropped(cap, old(pages), pages, r)
      ensures rc != Success ==> pages == old(pages)
      ensures forall p :: p in pages && p != r.page ==> pages[p] == old(pages)[p]
    {
      var page;
      rc, page := DeleteInPage(cap, pages[r.page], r.slot);
      pages := pages[r.page := page];
    }

    /** `get_record`. */
    method GetRecord(r: Rid) returns (rc: Rc, data: int)
      requires Valid() && r.page != 0 && r.slot >= 0
      ensures rc == if r.page !in pages then IoErrRead else if r.slot >= cap then InvalidRid
                    else if Live(cap, pages, r) then Success else NotExist
      ensures rc == Success ==> data == DataAt(cap, pages, r)
    {
      if r.page !in pages {
        return IoErrRead, 0;
      }
      if r.slot >= cap {
        return InvalidRid, 0;
      }
      assert PageOk(cap, pages[r.page]);
      if !Bit(pages[r.page].bitmap, r.slot) {
        return NotExist, 0;
      }
      return Success, pages[r.page].slots[r.slot];
    }
  }

  lemma EmptyPageAdds(cap: nat, before: map<int, RecordPage>, after: map<int, RecordPage>, p: int)
    requires p !in before && after == before[p := EmptyPage(cap)]
    ensures forall x: Rid :: SameRecord(cap, before, after, x)
  {
    EmptyPageOk(cap);
  }

  /** An empty page in between does not show. */
  lemma NewPageAdds(cap: nat, before: map<int, RecordPage>, between: map<int, RecordPage>, after: map<int, RecordPage>, r: Rid, data: int)
    requires Added(cap, between, after, r, data)
    requires forall x: Rid :: SameRecord(cap, before, between, x)
    ensures Added(cap, before, after, r, data)
  {
    assert SameRecord(cap, before, between, r);
    forall x: Rid | x != r
      ensures SameRecord(cap, before, after, x)
    {
      assert SameRecord(cap, before, between, x) && SameRecord(cap, between, after, x);
    }
  }
}
