/**
 * Panel detection post-processing: the bounding rectangles found in one frame
 * are filtered by area, put into reading order and counted to name the grid
 * difficulty. The image processing that produces the rectangles (grey-scale
 * conversion, binarisation, contour search) is outside this model: detection
 * starts from the list of bounding rectangles.
 */
module Detector {

  /** A bounding rectangle in frame coordinates: left edge, top edge, width, height. */
  datatype Rect = Rect(x: int, y: int, w: int, h: int)

  /** Accepted areas lie strictly between these two bounds (in square pixels). */
  const MinArea: int := 4000
  const MaxArea: int := 25000

  /** Height of one row bucket of the reading-order sort, in pixels. */
  const RowHeight: int := 50

  predicate Accepted(r: Rect) {
    MinArea < r.w * r.h < MaxArea
  }

  /** The accepted rectangles, in input order (the append loop of the detector). */
  function Filtered(rects: seq<Rect>): seq<Rect> {
    if rects == [] then []
    else
      var last := rects[|rects| - 1];
      Filtered(rects[..|rects| - 1]) + (if Accepted(last) then [last] else [])
  }

  lemma {:induction false} FilteredKeepsExactlyAccepted(rects: seq<Rect>)
    ensures forall r :: r in Filtered(rects) ==> Accepted(r)
    ensures forall r :: multiset(Filtered(rects))[r] == if Accepted(r) then multiset(rects)[r] else 0
  {
    if rects != [] {
      var init, last := rects[..|rects| - 1], rects[|rects| - 1];
      FilteredKeepsExactlyAccepted(init);
      assert rects == init + [last];
    }
  }

  // ---------------------------------------------------------------------------
  // Reading order
  // ---------------------------------------------------------------------------

  /** The sort key: coarse row bucket first, then the left edge. */
  datatype SortKey = SortKey(row: int, col: int)

  /**
   * The key of a rectangle. The row bucket is the floor of y / RowHeight,
   * which is what floor division gives for a positive divisor, also for
   * negative y.
   */
  function Key(r: Rect): (k: SortKey)
    ensures k.col == r.x
    ensures RowHeight * k.row <= r.y < RowHeight * (k.row + 1)
  {
    SortKey(r.y / RowHeight, r.x)
  }

  /** Lexicographic order on keys. */
  predicate KeyLe(a: SortKey, b: SortKey) {
    a.row < b.row || (a.row == b.row && a.col <= b.col)
  }

  predicate InReadingOrder(s: seq<Rect>) {
    forall i, j :: 0 <= i < j < |s| ==> KeyLe(Key(s[i]), Key(s[j]))
  }

  /** Places x behind every element whose key is not greater than x's. */
  function Insert(t: seq<Rect>, x: Rect): seq<Rect> {
    if t == [] || KeyLe(Key(t[|t| - 1]), Key(x)) then t + [x]
    else Insert(t[..|t| - 1], x) + [t[|t| - 1]]
  }

  /** The stable sort of s by Key, as insertion sort. */
  function ReadingOrder(s: seq<Rect>): seq<Rect> {
    if s == [] then [] else Insert(ReadingOrder(s[..|s| - 1]), s[|s| - 1])
  }

  /** The elements of s whose key is k, in their order in s. */
  function WithKey(s: seq<Rect>, k: SortKey): seq<Rect> {
    if s == [] then []
    else
      var last := s[|s| - 1];
      WithKey(s[..|s| - 1], k) + (if Key(last) == k then [last] else [])
  }

  lemma {:induction false} WithKeyMembers(s: seq<Rect>, k: SortKey)
    ensures forall r :: r in WithKey(s, k) <==> r in s && Key(r) == k
  {
    if s != [] {
      WithKeyMembers(s[..|s| - 1], k);
      assert s == s[..|s| - 1] + [s[|s| - 1]];
    }
  }

  lemma {:induction false} WithKeyMultiset(s: seq<Rect>, k: SortKey)
    ensures forall r :: multiset(WithKey(s, k))[r] == if Key(r) == k then multiset(s)[r] else 0
  {
    if s != [] {
      WithKeyMultiset(s[..|s| - 1], k);
      assert s == s[..|s| - 1] + [s[|s| - 1]];
    }
  }

  lemma {:induction false} InsertMultiset(t: seq<Rect>, x: Rect)
    ensures multiset(Insert(t, x)) == multiset(t) + multiset{x}
  {
    if !(t == [] || KeyLe(Key(t[|t| - 1]), Key(x))) {
      InsertMultiset(t[..|t| - 1], x);
      assert t == t[..|t| - 1] + [t[|t| - 1]];
    }
  }

  lemma {:induction false} InsertSorted(t: seq<Rect>, x: Rect)
    requires InReadingOrder(t)
    ensures InReadingOrder(Insert(t, x))
  {
    if t == [] || KeyLe(Key(t[|t| - 1]), Key(x)) {
      var u := t + [x];
      forall i, j | 0 <= i < j < |u| ensures KeyLe(Key(u[i]), Key(u[j])) {
        if j == |t| && i < |t| - 1 {
          assert KeyLe(Key(t[i]), Key(t[|t| - 1]));
        }
      }
    } else {
      var init, last := t[..|t| - 1], t[|t| - 1];
      InsertSorted(init, x);
      InsertMultiset(init, x);
      var v := Insert(init, x);
      var u := v + [last];
      forall i | 0 <= i < |v| ensures KeyLe(Key(v[i]), Key(last)) {
        assert v[i] in multiset(v);
        if v[i] != x {
          assert v[i] in init;
          var m :| 0 <= m < |init| && init[m] == v[i];
          assert t[m] == v[i];
        }
      }
      forall i, j | 0 <= i < j < |u| ensures KeyLe(Key(u[i]), Key(u[j])) {
        if j < |v| {
          assert u[i] == v[i] && u[j] == v[j];
        }
      }
    }
  }

  lemma {:induction false} ReadingOrderSortedPermutation(s: seq<Rect>)
    ensures InReadingOrder(ReadingOrder(s))
    ensures multiset(ReadingOrder(s)) == multiset(s)
  {
    if s != [] {
      var init, last := s[..|s| - 1], s[|s| - 1];
      ReadingOrderSortedPermutation(init);
      InsertSorted(ReadingOrder(init), last);
      InsertMultiset(ReadingOrder(init), last);
      assert s == init + [last];
    }
  }

  lemma {:induction false} InsertWithKey(t: seq<Rect>, x: Rect, k: SortKey)
    ensures WithKey(Insert(t, x), k) == WithKey(t, k) + (if Key(x) == k then [x] else [])
  {
    if t == [] || KeyLe(Key(t[|t| - 1]), Key(x)) {
      assert (t + [x])[..|t|] == t;
    } else {
      var init, last := t[..|t| - 1], t[|t| - 1];
      InsertWithKey(init, x, k);
      var v := Insert(init, x);
      assert (v + [last])[..|v|] == v;
      assert Key(last) != Key(x);
    }
  }

  /** Rectangles with equal keys keep their input order (Python's sort is stable). */
  lemma {:induction false} ReadingOrderStable(s: seq<Rect>, k: SortKey)
    ensures WithKey(ReadingOrder(s), k) == WithKey(s, k)
  {
    if s != [] {
      var init, last := s[..|s| - 1], s[|s| - 1];
      ReadingOrderStable(init, k);
      InsertWithKey(ReadingOrder(init), last, k);
    }
  }

  lemma WithKeyDropLast(s: seq<Rect>, k: SortKey)
    requires s != []
    ensures var w := WithKey(s, k);
      WithKey(s[..|s| - 1], k) == if Key(s[|s| - 1]) == k then w[..|w| - 1] else w
  {
  }

  lemma LastHasKeyClass(s: seq<Rect>)
    requires s != []
    ensures WithKey(s, Key(s[|s| - 1])) != []
  {
  }

  lemma SortedPrefix(s: seq<Rect>)
    requires InReadingOrder(s) && s != []
    ensures InReadingOrder(s[..|s| - 1])
  {
    var p := s[..|s| - 1];
    forall i, j | 0 <= i < j < |p| ensures KeyLe(Key(p[i]), Key(p[j])) {
      assert p[i] == s[i] && p[j] == s[j];
    }
  }

  /** The last element of a sequence in reading order has the greatest key. */
  lemma LastIsGreatest(s: seq<Rect>, r: Rect)
    requires InReadingOrder(s) && r in s
    ensures KeyLe(Key(r), Key(s[|s| - 1]))
  {
    var m :| 0 <= m < |s| && s[m] == r;
    if m < |s| - 1 {
      assert KeyLe(Key(s[m]), Key(s[|s| - 1]));
    }
  }

  /** Two nonempty sequences in reading order with the same elements of each key end in the same key. */
  lemma SameLastKey(s: seq<Rect>, t: seq<Rect>)
    requires InReadingOrder(s) && InReadingOrder(t) && s != [] && t != []
    requires forall k :: WithKey(s, k) == WithKey(t, k)
    ensures Key(s[|s| - 1]) == Key(t[|t| - 1])
  {
    var ls, lt := s[|s| - 1], t[|t| - 1];
    WithKeyMembers(s, Key(ls));
    WithKeyMembers(t, Key(ls));
    WithKeyMembers(s, Key(lt));
    WithKeyMembers(t, Key(lt));
    assert ls in WithKey(s, Key(ls));
    assert ls in WithKey(t, Key(ls));
    LastIsGreatest(t, ls);
    assert lt in WithKey(t, Key(lt));
    assert lt in WithKey(s, Key(lt));
    LastIsGreatest(s, lt);
  }

  /**
   * A sequence in reading order is determined by its elements of each key:
   * there is exactly one way to put rectangles into reading order while
   * keeping rectangles of equal key in a given order.
   */
  lemma {:induction false} ReadingOrderUnique(s: seq<Rect>, t: seq<Rect>)
    requires InReadingOrder(s) && InReadingOrder(t)
    requires forall k :: WithKey(s, k) == WithKey(t, k)
    ensures s == t
  {
    if s == [] && t == [] {
    } else if s == [] {
      LastHasKeyClass(t);
      assert false;
    } else if t == [] {
      LastHasKeyClass(s);
      assert false;
    } else {
      var s', ls := s[..|s| - 1], s[|s| - 1];
      var t', lt := t[..|t| - 1], t[|t| - 1];
      SameLastKey(s, t);
      var k := Key(ls);
      assert WithKey(s, k) == WithKey(s', k) + [ls];
      assert WithKey(t, k) == WithKey(t', k) + [lt];
      assert ls == lt by {
        assert WithKey(s, k)[|WithKey(s, k)| - 1] == ls;
        assert WithKey(t, k)[|WithKey(t, k)| - 1] == lt;
      }
      forall j ensures WithKey(s', j) == WithKey(t', j) {
        assert WithKey(s, j) == WithKey(t, j);
        WithKeyDropLast(s, j);
        WithKeyDropLast(t, j);
      }
      SortedPrefix(s);
      SortedPrefix(t);
      ReadingOrderUnique(s', t');
      assert s == s' + [ls] && t == t' + [lt];
    }
  }

  /** Two sequences with the same elements, all of them equal, are the same sequence. */
  lemma SameConstantSeq(u: seq<Rect>, v: seq<Rect>)
    requires multiset(u) == multiset(v)
    requires forall a, b :: a in u && b in u ==> a == b
    ensures u == v
  {
    assert |u| == |multiset(u)| == |multiset(v)| == |v|;
    forall i | 0 <= i < |u| ensures u[i] == v[i] {
      assert v[i] in multiset(v);
      assert v[i] in multiset(u);
      assert v[i] in u && u[i] in u;
    }
  }

  lemma SameKeyClass(s: seq<Rect>, t: seq<Rect>, k: SortKey)
    requires multiset(s) == multiset(t)
    requires forall a, b :: a in s && b in s && Key(a) == Key(b) ==> a == b
    ensures WithKey(s, k) == WithKey(t, k)
  {
    var u, v := WithKey(s, k), WithKey(t, k);
    WithKeyMultiset(s, k);
    WithKeyMultiset(t, k);
    assert multiset(u) == multiset(v) by {
      forall r ensures multiset(u)[r] == multiset(v)[r] { }
    }
    WithKeyMembers(s, k);
    forall a, b | a in u && b in u ensures a == b { }
    SameConstantSeq(u, v);
  }

  /**
   * When no two different rectangles share a key, the reading order depends
   * only on which rectangles were found, not on the order the contour search
   * listed them in.
   */
  lemma ReadingOrderIgnoresInputOrder(s: seq<Rect>, t: seq<Rect>)
    requires multiset(s) == multiset(t)
    requires forall a, b :: a in s && b in s && Key(a) == Key(b) ==> a == b
    ensures ReadingOrder(s) == ReadingOrder(t)
  {
    ReadingOrderSortedPermutation(s);
    ReadingOrderSortedPermutation(t);
    forall k ensures WithKey(ReadingOrder(s), k) == WithKey(ReadingOrder(t), k) {
      ReadingOrderStable(s, k);
      ReadingOrderStable(t, k);
      SameKeyClass(s, t, k);
    }
    ReadingOrderUnique(ReadingOrder(s), ReadingOrder(t));
  }

  // ---------------------------------------------------------------------------
  // Difficulty
  // ---------------------------------------------------------------------------

  /** The grid difficulty named by the number of accepted rectangles. */
  function Difficulty(count: nat): (name: string)
    ensures name == "Beginner (3x4)" <==> count == 12
    ensures name == "Intermediate (4x4)" <==> count == 16
    ensures name == "Advanced (4x5)" <==> count == 20
    ensures name == "Unknown" <==> count != 12 && count != 16 && count != 20
  {
    if count == 12 then "Beginner (3x4)"
    else if count == 16 then "Intermediate (4x4)"
    else if count == 20 then "Advanced (4x5)"
    else "Unknown"
  }

  // ---------------------------------------------------------------------------
  // The detector
  // ---------------------------------------------------------------------------

  /**
   * Moves a[i] left past every element of the sorted prefix a[..i] whose key
   * is greater, shifting those one place right.
   */
  method InsertIntoPrefix(a: array<Rect>, i: nat)
    requires i < a.Length
    modifies a
    ensures a[..i + 1] == Insert(old(a[..i]), old(a[i]))
    ensures forall m | i < m < a.Length :: a[m] == old(a[m])
  {
    ghost var t := a[..i];
    var x := a[i];
    var j := i;
    assert t[..j] == t && t[j..i] == [];
    while j > 0 && !KeyLe(Key(a[j - 1]), Key(x))
      invariant 0 <= j <= i
      invariant forall m :: 0 <= m < j ==> a[m] == t[m]
      invariant forall m :: j < m <= i ==> a[m] == t[m - 1]
      invariant forall m | i < m < a.Length :: a[m] == old(a[m])
      invariant Insert(t, x) == Insert(t[..j], x) + t[j..i]
    {
      assert t[..j][..j - 1] == t[..j - 1];
      a[j] := a[j - 1];
      j := j - 1;
    }
    a[j] := x;
    assert a[..i + 1] == t[..j] + [x] + t[j..i];
  }

  /** Sorting a prefix one element longer inserts that element into the sorted shorter prefix. */
  lemma ReadingOrderStep(s: seq<Rect>, i: nat)
    requires i < |s|
    ensures ReadingOrder(s[..i + 1]) == Insert(ReadingOrder(s[..i]), s[i])
  {
    assert s[..i + 1][..i] == s[..i];
  }

  /** Sorts a in place into reading order, stably (insertion sort). */
  method SortReadingOrder(a: array<Rect>)
    modifies a
    ensures a[..] == ReadingOrder(old(a[..]))
  {
    ghost var s := a[..];
    for i := 0 to a.Length
      invariant a[..i] == ReadingOrder(s[..i])
      invariant forall m | i <= m < a.Length :: a[m] == s[m]
    {
      InsertIntoPrefix(a, i);
      ReadingOrderStep(s, i);
    }
    assert s[..a.Length] == s;
    assert a[..a.Length] == a[..];
  }

  /**
   * One detection pass over the bounding rectangles of a frame: the accepted
   * rectangles in reading order, and the difficulty their number names.
   */
  method DetectPanels(rects: seq<Rect>) returns (detected: seq<Rect>, difficulty: string)
    ensures forall r :: r in detected ==> Accepted(r)
    ensures multiset(detected) == multiset(Filtered(rects))
    ensures InReadingOrder(detected)
    ensures forall k :: WithKey(detected, k) == WithKey(Filtered(rects), k)
    ensures detected == ReadingOrder(Filtered(rects))
    ensures difficulty == Difficulty(|detected|)
  {
    var kept: seq<Rect> := [];
    for i := 0 to |rects|
      invariant kept == Filtered(rects[..i])
    {
      assert rects[..i + 1][..i] == rects[..i];
      if Accepted(rects[i]) {
        kept := kept + [rects[i]];
      }
    }
    assert rects[..|rects|] == rects;
    var a := new Rect[|kept|](k requires 0 <= k < |kept| => kept[k]);
    assert a[..] == kept;
    SortReadingOrder(a);
    detected := a[..];
    difficulty := Difficulty(|detected|);
    FilteredKeepsExactlyAccepted(rects);
    ReadingOrderSortedPermutation(kept);
    forall k ensures WithKey(detected, k) == WithKey(kept, k) {
      ReadingOrderStable(kept, k);
    }
    forall r | r in detected ensures Accepted(r) {
      assert r in multiset(detected);
    }
  }
}
