/** Reading order of detected text boxes: a stable sort on the first corner's
    `(y, x)`, then one left-to-right pass of adjacent swaps that puts boxes of
    the same visual row (y within `RowTolerance`) left to right. */
module BoxSort {
  import opened Geometry

  /** Two boxes whose first-corner y values differ by less than this count
      as one row for the swap pass. */
  const RowTolerance := 10

  function Abs(v: int): int { if v < 0 then -v else v }

  /** The primary sort key `(y, x)` of the first corner, compared lexicographically. */
  predicate KeyLe(a: Quad, b: Quad)
  {
    a.p0.y < b.p0.y || (a.p0.y == b.p0.y && a.p0.x <= b.p0.x)
  }

  predicate SortedByKey(s: seq<Quad>)
  {
    forall i, j :: 0 <= i < j < |s| ==> KeyLe(s[i], s[j])
  }

  /** Inserts `q` into `s` after every element whose key is not greater than
      its own, so that equal keys keep their arrival order. */
  function Insert(s: seq<Quad>, q: Quad): (r: seq<Quad>)
    ensures multiset(r) == multiset(s) + multiset{q}
  {
    if s == [] then [q]
    else if !KeyLe(s[0], q) then [q] + s
    else
      assert s == [s[0]] + s[1..];
      [s[0]] + Insert(s[1..], q)
  }

  lemma {:induction false} InsertSorted(s: seq<Quad>, q: Quad)
    requires SortedByKey(s)
    ensures SortedByKey(Insert(s, q))
  {
    if s == [] {
    } else if !KeyLe(s[0], q) {
      assert forall k :: 0 <= k < |s| ==> KeyLe(s[0], s[k]);
      ConsSorted(q, s);
    } else {
      var rest := Insert(s[1..], q);
      InsertSorted(s[1..], q);
      forall k | 0 <= k < |rest| ensures KeyLe(s[0], rest[k]) {
        assert rest[k] in multiset(rest);
        if rest[k] != q {
          assert rest[k] in multiset(s[1..]);
          assert rest[k] in s[1..];
        }
      }
      ConsSorted(s[0], rest);
    }
  }

  /** A box no greater than every box of a sorted list may go in front. */
  lemma ConsSorted(x: Quad, s: seq<Quad>)
    requires SortedByKey(s)
    requires forall k :: 0 <= k < |s| ==> KeyLe(x, s[k])
    ensures SortedByKey([x] + s)
  {
    var r := [x] + s;
    forall i, j | 0 <= i < j < |r| ensures KeyLe(r[i], r[j]) {
      assert r[j] == s[j - 1];
      if i > 0 {
        assert r[i] == s[i - 1];
      }
    }
  }

  /** The stable sort the source calls with key `(y, x)` of the first corner. */
  function SortByKey(s: seq<Quad>): (r: seq<Quad>)
    ensures multiset(r) == multiset(s)
  {
    if s == [] then []
    else
      assert s == s[..|s| - 1] + [s[|s| - 1]];
      Insert(SortByKey(s[..|s| - 1]), s[|s| - 1])
  }

  lemma {:induction false} SortByKeySorted(s: seq<Quad>)
    ensures SortedByKey(SortByKey(s))
  {
    if s != [] {
      SortByKeySorted(s[..|s| - 1]);
      InsertSorted(SortByKey(s[..|s| - 1]), s[|s| - 1]);
    }
  }

  /** The swap condition: the later box lies in the same row as the earlier
      one and starts to its left. */
  predicate ShouldSwap(earlier: Quad, later: Quad)
  {
    Abs(later.p0.y - earlier.p0.y) < RowTolerance && later.p0.x < earlier.p0.x
  }

  /** One step of the pass at position `i`: exchange `s[i]` and `s[i + 1]`
      when they are out of order within a row. */
  function Step(s: seq<Quad>, i: nat): (r: seq<Quad>)
    requires i + 1 < |s|
    ensures |r| == |s| && multiset(r) == multiset(s)
    ensures ShouldSwap(s[i], s[i + 1]) ==> r[i] == s[i + 1] && r[i + 1] == s[i]
    ensures !ShouldSwap(s[i], s[i + 1]) ==> r == s
    ensures forall k :: 0 <= k < |s| && k != i && k != i + 1 ==> r[k] == s[k]
  {
    if ShouldSwap(s[i], s[i + 1]) then s[i := s[i + 1]][i + 1 := s[i]] else s
  }

  /** The swap pass from position `i` to the end. The element just moved to
      `i + 1` is compared again at the next step, so one box can travel
      several places to the right. */
  function SwapPass(s: seq<Quad>, i: nat): (r: seq<Quad>)
    decreases |s| - i
  {
    if i + 1 >= |s| then s else SwapPass(Step(s, i), i + 1)
  }

  lemma SwapPassUnfold(s: seq<Quad>, i: nat)
    requires i + 1 < |s|
    ensures SwapPass(s, i) == SwapPass(Step(s, i), i + 1)
  {
  }

  /** The reading order `sorted_boxes` returns. */
  function ReadingOrder(dtBoxes: seq<Quad>): seq<Quad>
  {
    SwapPass(SortByKey(dtBoxes), 0)
  }

  /** No box is followed by one lying a row or more above it. */
  predicate RowOrdered(s: seq<Quad>)
  {
    forall i, j :: 0 <= i < j < |s| ==> s[i].p0.y - s[j].p0.y < RowTolerance
  }

  lemma {:induction false} SwapPassPermutes(s: seq<Quad>, i: nat)
    ensures |SwapPass(s, i)| == |s|
    ensures multiset(SwapPass(s, i)) == multiset(s)
    decreases |s| - i
  {
    if i + 1 < |s| {
      SwapPassPermutes(Step(s, i), i + 1);
    }
  }

  /** What holds when the pass reaches position `i`: the prefix up to and
      including the box at `i` is row-ordered, it lies at or above every
      unvisited box, and the unvisited suffix is still sorted by y. */
  ghost predicate PassInvariant(s: seq<Quad>, i: nat)
    requires i < |s|
  {
    && (forall p, q :: 0 <= p < q <= i ==> s[p].p0.y - s[q].p0.y < RowTolerance)
    && (forall p, q :: 0 <= p <= i < q < |s| ==> s[p].p0.y <= s[q].p0.y)
    && (forall p, q :: i < p < q < |s| ==> s[p].p0.y <= s[q].p0.y)
  }

  lemma {:induction false} StepKeepsInvariant(s: seq<Quad>, i: nat)
    requires i + 1 < |s| && PassInvariant(s, i)
    ensures PassInvariant(Step(s, i), i + 1)
  {
    var r := Step(s, i);
    forall p, q | 0 <= p < q <= i + 1
      ensures r[p].p0.y - r[q].p0.y < RowTolerance
    {
      if q == i + 1 && p == i && ShouldSwap(s[i], s[i + 1]) {
      } else if q == i + 1 && !ShouldSwap(s[i], s[i + 1]) {
        assert s[p].p0.y <= s[q].p0.y;
      } else if q == i && ShouldSwap(s[i], s[i + 1]) {
        assert s[p].p0.y <= s[i + 1].p0.y;
      }
    }
    forall p, q | 0 <= p <= i + 1 < q < |s|
      ensures r[p].p0.y <= r[q].p0.y
    {
      if p == i && ShouldSwap(s[i], s[i + 1]) {
        assert r[p] == s[i + 1];
      }
    }
  }

  lemma {:induction false} SwapPassRowOrdered(s: seq<Quad>, i: nat)
    requires i < |s| && PassInvariant(s, i)
    ensures RowOrdered(SwapPass(s, i))
    decreases |s| - i
  {
    if i + 1 < |s| {
      StepKeepsInvariant(s, i);
      SwapPassRowOrdered(Step(s, i), i + 1);
    }
  }

  /** `sorted_boxes` returns a permutation of its input in which no box is
      followed by one a row or more above it; hence two boxes whose y values
      differ by `RowTolerance` or more stay in their `(y, x)`-sorted order. */
  lemma ReadingOrderProperties(dtBoxes: seq<Quad>)
    ensures |ReadingOrder(dtBoxes)| == |dtBoxes|
    ensures multiset(ReadingOrder(dtBoxes)) == multiset(dtBoxes)
    ensures RowOrdered(ReadingOrder(dtBoxes))
    ensures var r := ReadingOrder(dtBoxes);
      forall i, j :: 0 <= i < j < |r| && Abs(r[i].p0.y - r[j].p0.y) >= RowTolerance ==>
        KeyLe(r[i], r[j]) && r[i].p0.y < r[j].p0.y
  {
    var t := SortByKey(dtBoxes);
    SortByKeySorted(dtBoxes);
    SwapPassPermutes(t, 0);
    assert |t| == |dtBoxes| by { assert |multiset(t)| == |multiset(dtBoxes)|; }
    if |t| > 0 {
      SwapPassRowOrdered(t, 0);
    }
  }

  /** The loop of `sorted_boxes`: one left-to-right pass of adjacent swaps
      over the list, in place. */
  method SwapPassInPlace(a: array<Quad>)
    modifies a
    ensures a[..] == SwapPass(old(a[..]), 0)
  {
    var numBoxes := a.Length;
    var i := 0;
    ghost var cur := a[..];
    while i + 1 < numBoxes
      invariant 0 <= i
      invariant a[..] == cur && |cur| == numBoxes
      invariant SwapPass(cur, i) == SwapPass(old(a[..]), 0)
      decreases numBoxes - i
    {
      SwapPassUnfold(cur, i);
      ghost var next := Step(cur, i);
      if Abs(a[i + 1].p0.y - a[i].p0.y) < RowTolerance && a[i + 1].p0.x < a[i].p0.x {
        var tmp := a[i];
        a[i] := a[i + 1];
        a[i + 1] := tmp;
        assert a[..] == cur[i := cur[i + 1]][i + 1 := cur[i]];
      }
      assert a[..] == next;
      cur := next;
      i := i + 1;
    }
    assert SwapPass(cur, i) == cur;
  }

  /** `sorted_boxes`: sort, copy into a list, then one pass of adjacent swaps
      over that list in place. */
  method SortedBoxes(dtBoxes: seq<Quad>) returns (boxes: seq<Quad>)
    ensures boxes == ReadingOrder(dtBoxes)
    ensures |boxes| == |dtBoxes| && multiset(boxes) == multiset(dtBoxes)
    ensures RowOrdered(boxes)
  {
    var numBoxes := |dtBoxes|;
    var sorted := SortByKey(dtBoxes);
    assert |sorted| == numBoxes by { assert |multiset(sorted)| == |multiset(dtBoxes)|; }
    var a := new Quad[numBoxes](k requires 0 <= k < numBoxes => sorted[k]);
    assert a[..] == sorted;
    SwapPassInPlace(a);
    boxes := a[..];
    ReadingOrderProperties(dtBoxes);
  }

  /** The row correction case: `A = (50, 100)` and `B = (10, 105)` lie in one
      row, so `B` comes first although the sort put `A` first. */
  lemma RowCorrectionExample()
    ensures var a := Quad(Point(50, 100), Point(60, 100), Point(60, 110), Point(50, 110));
      var b := Quad(Point(10, 105), Point(20, 105), Point(20, 115), Point(10, 115));
      ReadingOrder([a, b]) == [b, a]
  {
    var a := Quad(Point(50, 100), Point(60, 100), Point(60, 110), Point(50, 110));
    var b := Quad(Point(10, 105), Point(20, 105), Point(20, 115), Point(10, 115));
    assert [a, b][..1] == [a];
    assert SortByKey([a]) == [a];
    assert SortByKey([a, b]) == [a, b];
  }

  /** A single pass does not sort a row: three boxes of one row arriving
      right to left come out as middle, left, right. */
  lemma SinglePassExample()
    ensures var p := Quad(Point(30, 0), Point(40, 0), Point(40, 5), Point(30, 5));
      var q := Quad(Point(20, 1), Point(30, 1), Point(30, 6), Point(20, 6));
      var s := Quad(Point(10, 2), Point(20, 2), Point(20, 7), Point(10, 7));
      SwapPass([p, q, s], 0) == [q, s, p]
  {
    var p := Quad(Point(30, 0), Point(40, 0), Point(40, 5), Point(30, 5));
    var q := Quad(Point(20, 1), Point(30, 1), Point(30, 6), Point(20, 6));
    var s := Quad(Point(10, 2), Point(20, 2), Point(20, 7), Point(10, 7));
    assert Step([p, q, s], 0) == [q, p, s];
    assert Step([q, p, s], 1) == [q, s, p];
    assert SwapPass([q, s, p], 2) == [q, s, p];
  }
}
