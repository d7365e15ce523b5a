/** Scan bounds given as text of any length, cut or padded to the width of a CHARS attribute. */
module UserKeys {
  import opened ByteStrings
  import opened Keys

  function Pad(bs: seq<int>, n: nat): seq<int>
    requires |bs| <= n
  {
    bs + Zeros(n - |bs|)
  }

  /** If the first byte beyond the width is zero, the text ends there: only zero bytes follow. */
  ghost predicate CText(u: seq<int>, width: nat) {
    Bytes(u) && (|u| > width && u[width] == 0 ==> forall j :: width <= j < |u| ==> u[j] == 0)
  }

  function Max(a: nat, b: nat): nat {
    if a < b then b else a
  }

  /** Text order: the shorter text is read as if followed by zero bytes. */
  function CompareText(v: seq<int>, u: seq<int>): int {
    MemcmpOf(Pad(v, Max(|v|, |u|)), Pad(u, Max(|v|, |u|)))
  }

  /** The byte at a position, zero beyond the end. */
  function ByteAt(u: seq<int>, i: nat): int {
    if i < |u| then u[i] else 0
  }

  ghost predicate SameText(v: seq<int>, u: seq<int>) {
    forall i: nat :: ByteAt(v, i) == ByteAt(u, i)
  }

  /** `v` is smaller in the first byte in which the two differ. */
  ghost predicate TextBefore(v: seq<int>, u: seq<int>) {
    exists i: nat :: ByteAt(v, i) < ByteAt(u, i) && forall j: nat :: j < i ==> ByteAt(v, j) == ByteAt(u, j)
  }

  lemma PadByte(u: seq<int>, n: nat, i: nat)
    requires |u| <= n && i < n
    ensures Pad(u, n)[i] == ByteAt(u, i)
  {
  }

  /** The comparison of texts is the order by the first different byte. */
  lemma TextOrder(v: seq<int>, u: seq<int>)
    ensures CompareText(v, u) == 0 <==> SameText(v, u)
    ensures CompareText(v, u) < 0 <==> TextBefore(v, u)
    ensures CompareText(v, u) > 0 <==> TextBefore(u, v)
  {
    var n := Max(|v|, |u|);
    var a, b := Pad(v, n), Pad(u, n);
    forall i | 0 <= i < n
      ensures a[i] == ByteAt(v, i) && b[i] == ByteAt(u, i)
    {
      PadByte(v, n, i);
      PadByte(u, n, i);
    }
    if a == b {
      MemcmpSame(a);
      assert forall i: nat :: ByteAt(v, i) == ByteAt(u, i);
    } else {
      var i := MemcmpFirst(a, b);
      assert forall j: nat :: j < i ==> a[..i][j] == b[..i][j];
      assert ByteAt(v, i) != ByteAt(u, i) && forall j: nat :: j < i ==> ByteAt(v, j) == ByteAt(u, j);
    }
  }

  // ---- bounds longer than the attribute ----

  /** The text without what does not fit in the attribute. */
  function Cut(u: seq<int>, width: nat): seq<int> {
    if |u| <= width then u else u[..width]
  }

  /** Cutting changes nothing unless the surplus counts. */
  lemma CutSame(u: seq<int>, width: nat)
    requires CText(u, width) && !Overlong(u, width)
    ensures SameText(Cut(u, width), u)
  {
    forall i: nat
      ensures ByteAt(Cut(u, width), i) == ByteAt(u, i)
    {
      assert |u| > width && width <= i < |u| ==> u[i] == 0;
    }
  }

  lemma CutFits(l: seq<int>, r: seq<int>, width: nat)
    requires CText(l, width) && CText(r, width) && !Overlong(l, width) && !Overlong(r, width)
    ensures Sign(CompareText(Cut(l, width), Cut(r, width))) == Sign(CompareText(l, r))
  {
    CutSame(l, width);
    CutSame(r, width);
    TextOrder(l, r);
    TextOrder(Cut(l, width), Cut(r, width));
  }

  /** Texts that differ before the cut compare as before. */
  lemma CutDiffers(l: seq<int>, r: seq<int>, width: nat)
    requires Bytes(l) && Bytes(r) && CompareText(Cut(l, width), Cut(r, width)) != 0
    ensures Sign(CompareText(Cut(l, width), Cut(r, width))) == Sign(CompareText(l, r))
  {
    TextOrder(l, r);
    TextOrder(Cut(l, width), Cut(r, width));
    if TextBefore(Cut(l, width), Cut(r, width)) {
      BeforeCut(l, r, width);
    } else {
      BeforeCut(r, l, width);
    }
  }

  lemma BeforeCut(l: seq<int>, r: seq<int>, width: nat)
    requires Bytes(l) && Bytes(r) && TextBefore(Cut(l, width), Cut(r, width))
    ensures TextBefore(l, r)
  {
    var i: nat :| ByteAt(Cut(l, width), i) < ByteAt(Cut(r, width), i)
      && forall j: nat :: j < i ==> ByteAt(Cut(l, width), j) == ByteAt(Cut(r, width), j);
    assert i < width;
    assert forall j: nat :: j <= i ==> ByteAt(Cut(l, width), j) == ByteAt(l, j) && ByteAt(Cut(r, width), j) == ByteAt(r, j);
  }

  /** Padding both texts further does not change their comparison. */
  lemma PadFurther(l: seq<int>, r: seq<int>, width: nat)
    requires |l| <= width && |r| <= width
    ensures MemcmpOf(Pad(l, width), Pad(r, width)) == CompareText(l, r)
  {
    var n := Max(|l|, |r|);
    assert Pad(l, width) == Pad(l, n) + Zeros(width - n) && Pad(r, width) == Pad(r, n) + Zeros(width - n);
    SameTail(Pad(l, n), Pad(r, n), Zeros(width - n));
  }

  /** Incrementing a byte in place, without a carry. */
  function Bump(bs: seq<int>): seq<int>
    requires |bs| >= 1
  {
    bs[|bs| - 1 := (bs[|bs| - 1] + 1) % 256]
  }

  /** `fix_user_key`: the bound as stored bytes, and whether the bound becomes inclusive. */
  function FixUserKey(u: seq<int>, width: nat, wantGreater: bool): (seq<int>, bool)
    requires width >= 1
  {
    if |u| <= width then (Pad(u, width), false)
    else if u[width] == 0 then (u[..width], false)
    else if wantGreater then (Bump(u[..width]), true)
    else (u[..width], true)
  }

  /** The bound is longer than the attribute and its surplus counts. */
  predicate Overlong(u: seq<int>, width: nat) {
    |u| > width && u[width] != 0
  }

  /** Appending equal tails does not change a comparison. */
  lemma {:induction false} SameTail(a: seq<int>, b: seq<int>, t: seq<int>)
    requires |a| == |b|
    ensures MemcmpOf(a + t, b + t) == MemcmpOf(a, b)
  {
    if t == [] {
      assert a + t == a && b + t == b;
    } else {
      var n := |t| - 1;
      SameTail(a, b, t[..n]);
      assert (a + t)[..|a| + n] == a + t[..n] && (b + t)[..|b| + n] == b + t[..n];
    }
  }

  /** A stored value compares with a padded bound as its bytes do. */
  lemma CompareShort(v: seq<int>, u: seq<int>)
    requires |u| <= |v|
    ensures CompareText(v, u) == MemcmpOf(v, Pad(u, |v|))
  {
    assert Pad(v, |v|) == v;
  }

  /** A bound whose surplus is only zero bytes compares like its first bytes. */
  lemma CompareCut(v: seq<int>, u: seq<int>)
    requires |u| > |v| && CText(u, |v|) && u[|v|] == 0
    ensures CompareText(v, u) == MemcmpOf(v, u[..|v|])
  {
    var n := |v|;
    var tail := Zeros(|u| - n);
    assert u == u[..n] + tail by {
      assert forall j :: n <= j < |u| ==> u[j] == tail[j - n];
    }
    assert Pad(u, |u|) == u;
    SameTail(v, u[..n], tail);
  }

  /** A value never equals a bound whose surplus counts: it is below it exactly when it is not
      above the bound's first bytes. */
  lemma CompareOver(v: seq<int>, u: seq<int>)
    requires Bytes(v) && Bytes(u) && Overlong(u, |v|)
    ensures Sign(CompareText(v, u)) == if MemcmpOf(v, u[..|v|]) <= 0 then -1 else 1
  {
    var n := |v|;
    var p := Pad(v, |u|);
    assert CompareText(v, u) == MemcmpOf(p, u) by {
      assert Pad(u, |u|) == u;
    }
    assert p[..n] == v;
    if MemcmpOf(v, u[..n]) != 0 {
      FirstDifference(p, u, n);
    } else {
      assert p[..n + 1][..n] == v && u[..n + 1][..n] == u[..n] && p[n] == 0;
      FirstDifference(p, u, n + 1);
    }
  }

  lemma {:induction false} BumpNum(bs: seq<int>)
    requires |bs| >= 1 && Bytes(bs)
    ensures Bytes(Bump(bs)) && |Bump(bs)| == |bs|
    ensures Num(Bump(bs)) == Num(bs) + if bs[|bs| - 1] < 255 then 1 else -255
  {
    var n := |bs| - 1;
    assert Bump(bs)[..n] == bs[..n];
  }

  /** A left bound keeps value `v` after the rewriting exactly when the original bound admits it. */
  ghost predicate LeftExact(u: seq<int>, width: nat, inclusive: bool, v: seq<int>)
    requires width >= 1
  {
    var (fixed, now) := FixUserKey(u, width, true);
    (if inclusive || now then Num(v) >= Num(fixed) else Num(v) > Num(fixed))
    <==> (if inclusive then CompareText(v, u) >= 0 else CompareText(v, u) > 0)
  }

  ghost predicate RightExact(u: seq<int>, width: nat, inclusive: bool, v: seq<int>)
    requires width >= 1
  {
    var (fixed, now) := FixUserKey(u, width, false);
    (if inclusive || now then Num(v) <= Num(fixed) else Num(v) < Num(fixed))
    <==> (if inclusive then CompareText(v, u) <= 0 else CompareText(v, u) < 0)
  }

  lemma CompareFits(v: seq<int>, u: seq<int>, width: nat)
    requires width >= 1 && |v| == width && Bytes(v) && CText(u, width) && !Overlong(u, width)
    ensures Sign(CompareText(v, u)) == Sign(Num(v) - Num(FixUserKey(u, width, true).0))
    ensures FixUserKey(u, width, true) == FixUserKey(u, width, false) && !FixUserKey(u, width, true).1
  {
    FixedFits(u, width);
    if |u| <= width {
      CompareShortNum(v, u, Pad(u, width));
    } else {
      CompareCutNum(v, u, u[..width]);
    }
  }

  lemma FixedFits(u: seq<int>, width: nat)
    requires width >= 1 && !Overlong(u, width)
    ensures FixUserKey(u, width, true) == FixUserKey(u, width, false) == (if |u| <= width then Pad(u, width) else u[..width], false)
  {
  }

  lemma CompareShortNum(v: seq<int>, u: seq<int>, w: seq<int>)
    requires Bytes(v) && Bytes(u) && |u| <= |v| && w == Pad(u, |v|)
    ensures Sign(CompareText(v, u)) == Sign(Num(v) - Num(w))
  {
    CompareShort(v, u);
    assert Bytes(w) && |w| == |v|;
    SameSign(CompareText(v, u), v, w);
  }

  lemma SameSign(m: int, v: seq<int>, w: seq<int>)
    requires Bytes(v) && Bytes(w) && |v| == |w| && m == MemcmpOf(v, w)
    ensures Sign(m) == Sign(Num(v) - Num(w))
  {
    MemcmpIsNum(v, w);
  }

  lemma CompareCutNum(v: seq<int>, u: seq<int>, w: seq<int>)
    requires Bytes(v) && CText(u, |v|) && |u| > |v| && u[|v|] == 0 && w == u[..|v|]
    ensures Sign(CompareText(v, u)) == Sign(Num(v) - Num(w))
  {
    CompareCut(v, u);
    assert Bytes(w) && |w| == |v|;
    SameSign(CompareText(v, u), v, w);
  }

  lemma CompareOverNum(v: seq<int>, u: seq<int>, width: nat)
    requires width >= 1 && |v| == width && Bytes(v) && Bytes(u) && Overlong(u, width)
    ensures Sign(CompareText(v, u)) == if Num(v) <= Num(u[..width]) then -1 else 1
  {
    CompareOver(v, u);
    MemcmpIsNum(v, u[..width]);
  }

  /** The right bound is rewritten exactly, whatever its length. */
  lemma FixRightExact(u: seq<int>, width: nat, inclusive: bool, v: seq<int>)
    requires width >= 1 && |v| == width && Bytes(v) && CText(u, width)
    ensures RightExact(u, width, inclusive, v)
  {
    if Overlong(u, width) {
      CompareOverNum(v, u, width);
    } else {
      CompareFits(v, u, width);
    }
  }

  /** The left bound is rewritten exactly for every stored value if and only if no byte overflows
      in the increment: the bound is not overlong, or the byte it bumps is below 255. */
  lemma FixLeftExact(u: seq<int>, width: nat, inclusive: bool)
    requires width >= 1 && CText(u, width)
    ensures (forall v :: |v| == width && Bytes(v) ==> LeftExact(u, width, inclusive, v))
      <==> (Overlong(u, width) ==> u[width - 1] < 255)
  {
    forall v | |v| == width && Bytes(v) && (Overlong(u, width) ==> u[width - 1] < 255)
      ensures LeftExact(u, width, inclusive, v)
    {
      if Overlong(u, width) {
        CompareOverNum(v, u, width);
        BumpNum(u[..width]);
      } else {
        CompareFits(v, u, width);
      }
    }
    if Overlong(u, width) && u[width - 1] == 255 {
      var v := u[..width];
      CompareOverNum(v, u, width);
      BumpNum(v);
      assert !LeftExact(u, width, inclusive, v);
    }
  }
}
