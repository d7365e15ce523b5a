/** Range scans over a CHARS index: text bounds of any length in, record identifiers out. */
module BPlusTextScan {
  import opened Wrappers
  import opened ByteStrings
  import opened BPlusState
  import opened BPlusTree
  import opened BPlusScanner
  import opened Keys
  import opened UserKeys
  import opened BPlusRange

  datatype TextBound = TextBound(text: seq<int>, inclusive: bool)

  /** A stored value satisfies the bounds, in text order. */
  ghost predicate TextWithin(v: seq<int>, left: Option<TextBound>, right: Option<TextBound>) {
    && (left.Some? ==>
      if left.value.inclusive then CompareText(v, left.value.text) >= 0 else CompareText(v, left.value.text) > 0)
    && (right.Some? ==>
      if right.value.inclusive then CompareText(v, right.value.text) <= 0 else CompareText(v, right.value.text) < 0)
  }

  /** The bytes of a bound that the attribute comparator looks at. */
  function Front(u: seq<int>, width: nat): seq<int> {
    if |u| <= width then Pad(u, width) else u[..width]
  }

  /** The argument check of `open`. */
  predicate Rejected(left: Option<TextBound>, right: Option<TextBound>, width: nat) {
    left.Some? && right.Some? &&
    var m := MemcmpOf(Front(left.value.text, width), Front(right.value.text, width));
    m > 0 || (m == 0 && !(left.value.inclusive && right.value.inclusive))
  }

  /** Two bounds in the wrong order, or equal and not both inclusive. */
  predicate OutOfOrder(left: TextBound, right: TextBound) {
    var m := CompareText(left.text, right.text);
    m > 0 || (m == 0 && (!left.inclusive || !right.inclusive))
  }

  function CutBound(b: TextBound, width: nat): TextBound {
    TextBound(Cut(b.text, width), b.inclusive)
  }

  /** The argument check refuses exactly the bounds that are out of order as far as the attribute reaches,
      so exactly those out of order if neither is over-long. Over-long bounds that differ before the cut are
      judged by their text; ones that agree up to it are refused if and only if one is exclusive. */
  lemma RejectedExact(left: TextBound, right: TextBound, width: nat)
    requires CText(left.text, width) && CText(right.text, width)
    ensures Rejected(Some(left), Some(right), width) <==> OutOfOrder(CutBound(left, width), CutBound(right, width))
    ensures !Overlong(left.text, width) && !Overlong(right.text, width) ==>
      (Rejected(Some(left), Some(right), width) <==> OutOfOrder(left, right))
    ensures CompareText(Cut(left.text, width), Cut(right.text, width)) != 0 ==>
      (Rejected(Some(left), Some(right), width) <==> CompareText(left.text, right.text) > 0)
    ensures CompareText(Cut(left.text, width), Cut(right.text, width)) == 0 ==>
      (Rejected(Some(left), Some(right), width) <==> !left.inclusive || !right.inclusive)
  {
    var l, r := left.text, right.text;
    assert Front(l, width) == Pad(Cut(l, width), width) && Front(r, width) == Pad(Cut(r, width), width);
    PadFurther(Cut(l, width), Cut(r, width), width);
    if !Overlong(l, width) && !Overlong(r, width) {
      CutFits(l, r, width);
    }
    if CompareText(Cut(l, width), Cut(r, width)) != 0 {
      CutDiffers(l, r, width);
    }
  }

  ghost predicate Usable(b: Option<TextBound>, width: nat) {
    b.Some? ==> CText(b.value.text, width)
  }

  /** No byte overflows when the left bound is rounded up. */
  predicate BumpFits(left: Option<TextBound>, width: nat)
    requires width >= 1
  {
    left.Some? && Overlong(left.value.text, width) ==> left.value.text[width - 1] < 255
  }

  function FixBound(b: Option<TextBound>, width: nat, wantGreater: bool): Option<Bound>
    requires width >= 1
  {
    if b.None? then None
    else
      var (fixed, now) := FixUserKey(b.value.text, width, wantGreater);
      Some(Bound(Num(fixed), b.value.inclusive || now))
  }

  lemma FixedRange(u: seq<int>, width: nat, wantGreater: bool)
    requires width >= 1 && Bytes(u)
    ensures 0 <= Num(FixUserKey(u, width, wantGreater).0) < Pow256(width)
  {
    var fixed := FixUserKey(u, width, wantGreater).0;
    assert Bytes(fixed) && |fixed| == width;
    NumRange(fixed);
  }

  lemma BoundKeyRange(b: Bound, range: nat)
    requires 0 <= b.rank < range
    ensures 0 <= LeftKey(b) < range * RID_RANGE && 0 <= RightKey(b) < range * RID_RANGE
  {
  }

  /** Bounds as ranks admit a stored value exactly when the original text bounds do. */
  lemma FixedWithin(n: nat, width: nat, left: Option<TextBound>, right: Option<TextBound>)
    requires width >= 1 && n < Pow256(width) && Usable(left, width) && Usable(right, width) && BumpFits(left, width)
    ensures Within(n, FixBound(left, width, true), FixBound(right, width, false))
      <==> TextWithin(Digits(n, width), left, right)
  {
    DigitsNum(n, width);
    var v := Digits(n, width);
    if left.Some? {
      FixLeftExact(left.value.text, width, left.value.inclusive);
      assert LeftExact(left.value.text, width, left.value.inclusive, v);
    }
    if right.Some? {
      FixRightExact(right.value.text, width, right.value.inclusive, v);
    }
  }

  /** A stored value compares with a bound through the bound's front, and overlong bounds never tie. */
  lemma CompareFront(v: seq<int>, u: seq<int>, width: nat)
    requires width >= 1 && |v| == width && Bytes(v) && CText(u, width)
    ensures Bytes(Front(u, width)) && |Front(u, width)| == width
    ensures Sign(CompareText(v, u)) ==
      if Overlong(u, width) then if Num(v) <= Num(Front(u, width)) then -1 else 1
      else Sign(Num(v) - Num(Front(u, width)))
  {
    if Overlong(u, width) {
      assert Front(u, width) == u[..width];
      CompareOverNum(v, u, width);
    } else {
      CompareFits(v, u, width);
    }
  }

  /** The bounds `open` refuses describe no possible value, with one exception: equal fronts where
      only the right bound is overlong and the left one is inclusive, such as ["ABCD", "ABCD1"). */
  lemma RejectedEmpty(left: Option<TextBound>, right: Option<TextBound>, width: nat)
    requires width >= 1 && Usable(left, width) && Usable(right, width) && Rejected(left, right, width)
    ensures (exists v :: |v| == width && Bytes(v) && TextWithin(v, left, right)) <==>
      && Front(left.value.text, width) == Front(right.value.text, width) && left.value.inclusive
      && !Overlong(left.value.text, width) && Overlong(right.value.text, width)
  {
    var l, r := left.value.text, right.value.text;
    var v0 := Front(l, width);
    CompareFront(Zeros(width), l, width);
    CompareFront(Zeros(width), r, width);
    MemcmpIsNum(v0, Front(r, width));
    forall v | |v| == width && Bytes(v) && TextWithin(v, left, right)
      ensures v0 == Front(r, width) && left.value.inclusive && !Overlong(l, width) && Overlong(r, width)
    {
      CompareFront(v, l, width);
      CompareFront(v, r, width);
    }
    if v0 == Front(r, width) && left.value.inclusive && !Overlong(l, width) && Overlong(r, width) {
      FrontWithin(left, right, width, v0);
    }
  }

  lemma FrontWithin(left: Option<TextBound>, right: Option<TextBound>, width: nat, v: seq<int>)
    requires width >= 1 && Usable(left, width) && Usable(right, width) && left.Some? && right.Some?
    requires v == Front(left.value.text, width) == Front(right.value.text, width) && |v| == width && Bytes(v)
    requires left.value.inclusive && !Overlong(left.value.text, width) && Overlong(right.value.text, width)
    ensures TextWithin(v, left, right)
  {
    CompareFront(v, left.value.text, width);
    CompareFront(v, right.value.text, width);
  }

  /** `rids` are the RIDs of exactly the entries whose attribute text lies within the bounds, once
      each, in key order. */
  ghost predicate DeliversText(all: set<Entry>, width: nat, left: Option<TextBound>, right: Option<TextBound>, rids: seq<Rid>)
    requires forall e :: e in all ==> e.key >= 0
  {
    exists es ::
      && Sorted(es) && rids == Rids(es)
      && forall e :: e in es <==> e in all && TextWithin(Digits(e.key / RID_RANGE, width), left, right)
  }

  lemma DeliversIsText(all: set<Entry>, width: nat, left: Option<TextBound>, right: Option<TextBound>, rids: seq<Rid>)
    requires width >= 1 && Usable(left, width) && Usable(right, width) && BumpFits(left, width)
    requires forall e :: e in all ==> 0 <= e.key < Pow256(width) * RID_RANGE
    requires Delivers(all, FixBound(left, width, true), FixBound(right, width, false), rids)
    ensures DeliversText(all, width, left, right, rids)
  {
    forall e | e in all
      ensures Within(e.key / RID_RANGE, FixBound(left, width, true), FixBound(right, width, false))
        <==> TextWithin(Digits(e.key / RID_RANGE, width), left, right)
    {
      FixedWithin(e.key / RID_RANGE, width, left, right);
    }
  }

  /** `open` on text bounds, `next_entry` to the end, `close`. */
  method ScanText(tree: BplusTreeHandler, width: nat, left: Option<TextBound>, right: Option<TextBound>)
    returns (rc: Rc, rids: seq<Rid>, ghost leak: multiset<int>)
    requires tree.Valid() && width >= 1 && tree.c == KeyCfg(Chars(width), 0, tree.c.leafMax, tree.c.internalMax)
    requires Usable(left, width) && Usable(right, width)
    requires forall e :: e in Contents(tree.S()) ==> RealKey(e.key)
    modifies tree.pool`pins, tree.pool`resident
    ensures tree.Valid() && tree.pool.pins == old(tree.pool.pins) + leak && |leak| <= 1
    ensures forall e :: e in Contents(tree.S()) ==> e.key >= 0
    ensures rc == InvalidArgument <==>
      left.Some? && right.Some? && OutOfOrder(CutBound(left.value, width), CutBound(right.value, width))
    ensures left.Some? && right.Some? && !Overlong(left.value.text, width) && !Overlong(right.value.text, width) ==>
      (rc == InvalidArgument <==> OutOfOrder(left.value, right.value))
    ensures rc != InvalidArgument ==> rc == if left.None? && tree.root == -1 then Empty else Success
    ensures rc == Success && BumpFits(left, width) ==> DeliversText(Contents(tree.S()), width, left, right, rids)
  {
    KeysInLimit(tree.c, tree.S());
    if left.Some? && right.Some? {
      RejectedExact(left.value, right.value, width);
    }
    rids, leak := [], multiset{};
    assert tree.pool.pins + leak == tree.pool.pins;
    if Rejected(left, right, width) {
      return InvalidArgument, [], leak;
    }
    if left.Some? {
      FixedRange(left.value.text, width, true);
      BoundKeyRange(FixBound(left, width, true).value, Pow256(width));
    }
    if right.Some? {
      FixedRange(right.value.text, width, false);
      BoundKeyRange(FixBound(right, width, false).value, Pow256(width));
    }
    rc, rids, leak := ScanBounds(tree, FixBound(left, width, true), FixBound(right, width, false));
    if rc == Success && BumpFits(left, width) {
      DeliversIsText(Contents(tree.S()), width, left, right, rids);
    }
  }

  lemma KeysInLimit(c: Cfg, s: St)
    requires Inv(c, s)
    ensures forall e :: e in Contents(s) ==> 0 <= e.key < c.limit
  {
    if s.root != -1 {
      KeysFromZero(c, s);
    }
  }

  /** The entries holding one attribute value, in key order. */
  ghost predicate DeliversValue(all: set<Entry>, width: nat, value: seq<int>, rids: seq<Rid>)
    requires forall e :: e in all ==> e.key >= 0
  {
    exists es ::
      && Sorted(es) && rids == Rids(es)
      && forall e :: e in es <==> e in all && Digits(e.key / RID_RANGE, width) == value
  }

  lemma EqualBounds(all: set<Entry>, width: nat, value: seq<int>, rids: seq<Rid>)
    requires width >= 1 && |value| == width && Bytes(value)
    requires forall e :: e in all ==> 0 <= e.key < Pow256(width) * RID_RANGE
    requires DeliversText(all, width, Some(TextBound(value, true)), Some(TextBound(value, true)), rids)
    ensures DeliversValue(all, width, value, rids)
  {
    var b := Some(TextBound(value, true));
    forall e | e in all
      ensures TextWithin(Digits(e.key / RID_RANGE, width), b, b) <==> Digits(e.key / RID_RANGE, width) == value
    {
      DigitsNum(e.key / RID_RANGE, width);
      EqualBound(Digits(e.key / RID_RANGE, width), value, width);
    }
  }

  lemma EqualBound(v: seq<int>, value: seq<int>, width: nat)
    requires width >= 1 && |v| == |value| == width && Bytes(v) && Bytes(value)
    ensures var b := Some(TextBound(value, true)); TextWithin(v, b, b) <==> v == value
  {
    CompareFront(v, value, width);
    assert Front(value, width) == value;
    MemcmpIsNum(v, value);
  }

  /** `get_entry`: the RIDs of exactly the entries with this attribute value, in key order. */
  method GetEntry(tree: BplusTreeHandler, width: nat, value: seq<int>)
    returns (rc: Rc, rids: seq<Rid>, ghost leak: multiset<int>)
    requires tree.Valid() && width >= 1 && tree.c == KeyCfg(Chars(width), 0, tree.c.leafMax, tree.c.internalMax)
    requires |value| == width && Bytes(value)
    requires forall e :: e in Contents(tree.S()) ==> RealKey(e.key)
    modifies tree.pool`pins, tree.pool`resident
    ensures tree.Valid() && tree.pool.pins == old(tree.pool.pins) + leak && |leak| <= 1
    ensures rc == Success && forall e :: e in Contents(tree.S()) ==> e.key >= 0
    ensures DeliversValue(Contents(tree.S()), width, value, rids)
  {
    KeysInLimit(tree.c, tree.S());
    var b := Some(TextBound(value, true));
    TextOrder(value, value);
    rc, rids, leak := ScanText(tree, width, b, b);
    EqualBounds(Contents(tree.S()), width, value, rids);
  }
}
