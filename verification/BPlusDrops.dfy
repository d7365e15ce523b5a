/** The pages a deletion disposes of. */
module BPlusDrops {
  import opened BPlusState

  function SizeOf(nd: Node): nat {
    match nd
    case Leaf(_, _, es) => |es|
    case Internal(_, ks) => |ks|
  }

  function MaxOf(c: Cfg, nd: Node): int {
    if nd.Leaf? then c.leafMax else c.internalMax
  }

  /** The slot of child `p`, or the number of slots if it is none of them. */
  ghost function SlotIn(ks: seq<Kid>, p: int): (i: nat)
    ensures i <= |ks| && (i < |ks| ==> ks[i].page == p)
    ensures forall x :: 0 <= x < i ==> ks[x].page != p
  {
    if ks == [] || ks[0].page == p then 0 else 1 + SlotIn(ks[1..], p)
  }

  /** The sibling that a short child at slot `i` is merged with or borrows from. */
  function SiblingSlot(i: int): int {
    if i == 0 then 1 else i - 1
  }

  ghost predicate IsSibling(s: St, p: int, nb: int)
    requires s.g.Keys == s.pages.Keys && p in s.pages
  {
    nb in s.pages && nb != p && s.g[nb].ht == s.g[p].ht
  }

  /** The pages disposed of when node `p` is left with `size` items: the right one of two merged
      siblings on every level that merges, and a root that has become superfluous. */
  ghost function DropsAt(c: Cfg, s: St, p: int, size: int): set<int>
    requires s.g.Keys == s.pages.Keys && p in s.pages && s.root in s.pages
    decreases s.g[s.root].ht - s.g[p].ht
  {
    var max := MaxOf(c, s.pages[p]);
    var q := s.pages[p].parent;
    if size >= max - max / 2 then {}
    else if q == -1 then if size > 1 || (s.pages[p].Leaf? && size > 0) then {} else {p}
    else if !(q in s.pages && s.pages[q].Internal? && s.g[p].ht < s.g[q].ht <= s.g[s.root].ht) then {}
    else
      var ks := s.pages[q].kids;
      var i := SlotIn(ks, p);
      if !(i < |ks| && SiblingSlot(i) < |ks| && IsSibling(s, p, ks[SiblingSlot(i)].page)) then {}
      else if size + SizeOf(s.pages[ks[SiblingSlot(i)].page]) > max then {}
      else {if i == 0 then ks[1].page else p} + DropsAt(c, s, q, |ks| - 1)
  }

  /** The pages that deleting `key` disposes of. */
  ghost function Drops(c: Cfg, s: St, key: int): set<int> {
    if HasKey(s, key) && s.g.Keys == s.pages.Keys && s.root in s.pages && exists p :: Covers(s, p, key)
    then var p :| Covers(s, p, key); DropsAt(c, s, p, |s.pages[p].entries| - 1)
    else {}
  }

  /** Page `x` is the same in both, at the same height. */
  ghost predicate SamePage(s: St, s': St, x: int) {
    x in s.pages && x in s.g && x in s'.pages && x in s'.g && s'.pages[x] == s.pages[x] && s'.g[x].ht == s.g[x].ht
  }

  ghost predicate AtOrAbove(s: St, x: int, h: int) {
    x in s.pages && x in s.g && s.g[x].ht >= h
  }

  lemma SiblingFrame(s: St, s': St, p: int, ks: seq<Kid>)
    requires s.g.Keys == s.pages.Keys && s'.g.Keys == s'.pages.Keys
    requires p in s.pages && p in s'.pages && s'.g[p].ht == s.g[p].ht
    requires forall x :: x != p && (AtOrAbove(s, x, s.g[p].ht) || AtOrAbove(s', x, s.g[p].ht)) ==> SamePage(s, s', x)
    ensures var i := SlotIn(ks, p); i < |ks| && SiblingSlot(i) < |ks| ==>
      var nb := ks[SiblingSlot(i)].page;
      (IsSibling(s, p, nb) <==> IsSibling(s', p, nb)) && (IsSibling(s, p, nb) ==> s'.pages[nb] == s.pages[nb])
  {
    var i := SlotIn(ks, p);
    if i < |ks| && SiblingSlot(i) < |ks| {
      var nb := ks[SiblingSlot(i)].page;
      assert IsSibling(s, p, nb) ==> SamePage(s, s', nb);
      assert IsSibling(s', p, nb) ==> SamePage(s, s', nb);
    }
  }

  /** Only the pages at the height of `p` and above, `p`'s own contents left out, matter. */
  lemma {:induction false} DropsFrame(c: Cfg, s: St, s': St, p: int, size: int)
    requires s.g.Keys == s.pages.Keys && s'.g.Keys == s'.pages.Keys && s'.root == s.root
    requires s.root in s.pages && s.root in s'.pages && s'.g[s.root].ht == s.g[s.root].ht
    requires p in s.pages && p in s'.pages && s'.g[p].ht == s.g[p].ht
    requires s'.pages[p].parent == s.pages[p].parent && (s'.pages[p].Leaf? <==> s.pages[p].Leaf?)
    requires forall x :: x != p && (AtOrAbove(s, x, s.g[p].ht) || AtOrAbove(s', x, s.g[p].ht)) ==> SamePage(s, s', x)
    requires forall x :: x in s.pages && x !in s'.pages ==> s.g[x].ht < s.g[p].ht
    ensures DropsAt(c, s', p, size) == DropsAt(c, s, p, size)
    decreases s.g[s.root].ht - s.g[p].ht
  {
    var q := s.pages[p].parent;
    var max := MaxOf(c, s.pages[p]);
    if size < max - max / 2 && q != -1 {
      assert AtOrAbove(s', q, s.g[p].ht) && q != p ==> SamePage(s, s', q);
      if q in s.pages && s.pages[q].Internal? && s.g[p].ht < s.g[q].ht <= s.g[s.root].ht {
        assert SamePage(s, s', q);
        SiblingFrame(s, s', p, s.pages[q].kids);
        DropsFrame(c, s, s', q, |s.pages[q].kids| - 1);
      }
    }
  }

  /** Only pages of the tree are disposed of. */
  lemma {:induction false} DropsIn(c: Cfg, s: St, p: int, size: int)
    requires s.g.Keys == s.pages.Keys && p in s.pages && s.root in s.pages
    ensures DropsAt(c, s, p, size) <= s.pages.Keys
    decreases s.g[s.root].ht - s.g[p].ht
  {
    var q := s.pages[p].parent;
    if q in s.pages && s.pages[q].Internal? && s.g[p].ht < s.g[q].ht <= s.g[s.root].ht {
      DropsIn(c, s, q, |s.pages[q].kids| - 1);
    }
  }
}
