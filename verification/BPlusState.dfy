/** Nodes, page store and structural invariant of the disk B+ tree. */
module BPlusState {

  /** Record identifier: a page number and a slot number. */
  datatype Rid = Rid(page: int, slot: int)

  /** An item of a leaf page. The key is the rank of the (attribute, RID) byte key. */
  datatype Entry = Entry(key: int, rid: Rid)

  /** An item of an internal page: a separator key and the child's page number. */
  datatype Kid = Kid(key: int, page: int)

  /** One index page; `parent` and `next` hold page numbers, -1 standing for no page. */
  datatype Node =
    | Leaf(parent: int, next: int, entries: seq<Entry>)
    | Internal(parent: int, kids: seq<Kid>)

  /** A key comparator on ranks: negative, zero or positive. */
  type Comparator = (int, int) -> int

  /** The comparator is the integer order on the ranks below `limit`. */
  ghost predicate Orders(cmp: Comparator, limit: int) {
    forall a, b :: 0 <= a < limit && 0 <= b < limit ==> (cmp(a, b) < 0 <==> a < b) && (cmp(a, b) == 0 <==> a == b)
  }

  /** The fixed part of the index file header: node capacities, the number of
      representable keys, the rank of the key whose bytes are all zero (it is never compared), and
      the comparator. */
  datatype Cfg = Cfg(leafMax: int, internalMax: int, limit: int, zero: int, cmp: Comparator) {
    ghost predicate Ok() {
      leafMax >= 4 && internalMax >= 6 && limit > 0 && Orders(cmp, limit)
    }
  }

  /** What a page stands for: the half-open key interval it covers and its height. */
  datatype Span = Span(lo: int, hi: int, ht: nat)

  /** The page store with its root, and the span of every page. */
  datatype St = St(pages: map<int, Node>, root: int, g: map<int, Span>)

  /** The key stored beside a pointer to a page whose interval starts at `lo`:
      `create_new_root` zero-fills it on the left spine. */
  function Slot(c: Cfg, lo: int): int {
    if lo == 0 then c.zero else lo
  }

  /** The upper end of `p` as its parent still sees it while the split (l, n) is pending. */
  ghost function HiX(s: St, l: int, n: int, p: int): int
    requires p in s.g && (p == l ==> n in s.g)
  {
    if p == l then s.g[n].hi else s.g[p].hi
  }

  ghost predicate Sorted(es: seq<Entry>) {
    forall i, j :: 0 <= i < j < |es| ==> es[i].key < es[j].key
  }

  /** Every page has a span, page numbers leave out the two header pages, and leaves are
      exactly the pages of height 0. */
  ghost predicate DomOk(c: Cfg, s: St) {
    && s.g.Keys == s.pages.Keys
    && (forall p :: p in s.pages ==> p >= 2 && 0 <= s.g[p].lo < s.g[p].hi <= c.limit)
    && (forall p :: p in s.pages ==> (s.pages[p].Leaf? <==> s.g[p].ht == 0))
  }

  /** (l, n) is either (-1, -1) or a page and its freshly split right half, not yet known
      to the parent. */
  ghost predicate PendOk(s: St, l: int, n: int)
    requires s.g.Keys == s.pages.Keys
  {
    || (l == -1 && n == -1)
    || (&& l in s.pages && n in s.pages && l != n && n != s.root
        && s.g[n].lo == s.g[l].hi && s.g[n].ht == s.g[l].ht
        && s.pages[n].parent == s.pages[l].parent)
  }

  /** The root covers all keys and is the only page of its height. */
  ghost predicate TopOk(c: Cfg, s: St, l: int, n: int)
    requires DomOk(c, s) && PendOk(s, l, n)
  {
    && s.root in s.pages && s.pages[s.root].parent == -1
    && s.g[s.root].lo == 0 && HiX(s, l, n, s.root) == c.limit
    && (forall p :: p in s.pages && p != s.root && !(l == s.root && p == n) ==> s.g[p].ht < s.g[s.root].ht)
  }

  /** Leaf entries are strictly sorted and lie in the leaf's interval. */
  ghost predicate LeavesOk(s: St)
    requires s.g.Keys == s.pages.Keys
  {
    forall p :: p in s.pages && s.pages[p].Leaf? ==> LeafAt(s.pages[p].entries, s.g[p].lo, s.g[p].hi)
  }

  ghost predicate LeafAt(es: seq<Entry>, lo: int, hi: int) {
    && Sorted(es)
    && (forall i :: 0 <= i < |es| ==> lo <= es[i].key < hi)
  }

  /** The i-th separator of a node covering [lo, hi): slot 0 does not separate anything. */
  ghost function Sep(ks: seq<Kid>, lo: int, hi: int, i: int): int
    requires 0 <= i <= |ks|
  {
    if i == 0 then lo else if i == |ks| then hi else ks[i].key
  }

  ghost predicate SepsOk(ks: seq<Kid>, lo: int, hi: int) {
    |ks| >= 1 && forall i, j :: 0 <= i < j <= |ks| ==> Sep(ks, lo, hi, i) < Sep(ks, lo, hi, j)
  }

  /** The i-th child of `p` covers the interval between two separators, knows `p` as its
      parent and sits one level below; the key beside the pointer, slot 0 included, is the
      start of the child's interval. */
  ghost predicate KidAt(c: Cfg, s: St, l: int, n: int, p: int, i: int)
    requires s.g.Keys == s.pages.Keys && PendOk(s, l, n)
    requires p in s.pages && s.pages[p].Internal? && 0 <= i < |s.pages[p].kids|
  {
    var ks := s.pages[p].kids;
    var k := ks[i].page;
    && k in s.pages && k != n
    && s.pages[k].parent == p
    && s.g[k].ht + 1 == s.g[p].ht
    && s.g[k].lo == Sep(ks, s.g[p].lo, s.g[p].hi, i)
    && HiX(s, l, n, k) == Sep(ks, s.g[p].lo, s.g[p].hi, i + 1)
    && ks[i].key == Slot(c, s.g[k].lo)
  }

  /** The children of `p` partition its interval in order. */
  ghost predicate KidsAt(c: Cfg, s: St, l: int, n: int, p: int)
    requires s.g.Keys == s.pages.Keys && PendOk(s, l, n)
    requires p in s.pages && s.pages[p].Internal?
  {
    && SepsOk(s.pages[p].kids, s.g[p].lo, s.g[p].hi)
    && (forall i {:trigger KidAt(c, s, l, n, p, i)} :: 0 <= i < |s.pages[p].kids| ==> KidAt(c, s, l, n, p, i))
  }

  ghost predicate KidsOk(c: Cfg, s: St, l: int, n: int)
    requires s.g.Keys == s.pages.Keys && PendOk(s, l, n)
  {
    forall p {:trigger KidsAt(c, s, l, n, p)} :: p in s.pages && s.pages[p].Internal? ==> KidsAt(c, s, l, n, p)
  }

  /** Every page but the root (and a pending right half) is found in its parent, beside the
      key that starts its interval. */
  ghost predicate UpOk(c: Cfg, s: St, n: int)
    requires s.g.Keys == s.pages.Keys
  {
    forall p {:trigger UpAt(c, s, p)} :: p in s.pages && p != s.root && p != n ==> UpAt(c, s, p)
  }

  ghost predicate UpAt(c: Cfg, s: St, p: int)
    requires p in s.pages && p in s.g
  {
    var q := s.pages[p].parent;
    q in s.pages && s.pages[q].Internal? && Kid(Slot(c, s.g[p].lo), p) in s.pages[q].kids
  }

  /** The leaf chain: each leaf points to the leaf whose interval starts where its own ends. */
  ghost predicate ChainOk(c: Cfg, s: St)
    requires s.g.Keys == s.pages.Keys
  {
    forall p {:trigger ChainAt(c, s, p)} :: p in s.pages && s.pages[p].Leaf? ==> ChainAt(c, s, p)
  }

  ghost predicate ChainAt(c: Cfg, s: St, p: int)
    requires s.g.Keys == s.pages.Keys && p in s.pages && s.pages[p].Leaf?
  {
    var q := s.pages[p].next;
    if q == -1 then s.g[p].hi == c.limit
    else q in s.pages && s.pages[q].Leaf? && s.g[q].lo == s.g[p].hi
  }

  /** The structural invariant of a non-empty tree while the split (l, n) is pending. */
  ghost predicate Struct(c: Cfg, s: St, l: int, n: int) {
    && c.Ok() && DomOk(c, s) && PendOk(s, l, n) && TopOk(c, s, l, n) && LeavesOk(s)
    && KidsOk(c, s, l, n) && UpOk(c, s, n) && ChainOk(c, s)
  }

  /** Occupancy of one node: at most the maximum and, away from the root, at least half of it. */
  ghost predicate SizeOk(c: Cfg, nd: Node, isRoot: bool) {
    match nd
    case Leaf(_, _, es) => (if isRoot then 1 else c.leafMax / 2) <= |es| <= c.leafMax
    case Internal(_, ks) => (if isRoot then 2 else c.internalMax / 2) <= |ks| <= c.internalMax
  }

  /** Occupancy holds everywhere except possibly at page `x`. */
  ghost predicate OccOk(c: Cfg, s: St, x: int) {
    forall p :: p in s.pages && p != x ==> SizeOk(c, s.pages[p], p == s.root)
  }

  /** The invariant of the index between operations. */
  ghost predicate Inv(c: Cfg, s: St) {
    if s.root == -1 then c.Ok() && s.pages == map[] && s.g == map[]
    else Struct(c, s, -1, -1) && OccOk(c, s, -1)
  }

  /** Leaf `p` is the one whose interval holds `key`. */
  ghost predicate Covers(s: St, p: int, key: int) {
    p in s.pages && p in s.g && s.pages[p].Leaf? && s.g[p].lo <= key < s.g[p].hi
  }

  /** The set of entries the tree holds. */
  ghost function Contents(s: St): set<Entry> {
    set p, e | p in s.pages && s.pages[p].Leaf? && e in s.pages[p].entries :: e
  }

  ghost predicate Holds(all: set<Entry>, key: int) {
    exists e :: e in all && e.key == key
  }

  ghost predicate HasKey(s: St, key: int) {
    Holds(Contents(s), key)
  }
}
