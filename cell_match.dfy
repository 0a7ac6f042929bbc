/** Greedy assignment of every detected text box to its nearest predicted
    table cell (`TableSystem.match_result`). The overlap and distance metrics
    live outside this model and are passed in as functions. */
module CellMatch {
  import opened Errors

  /** The pair the matcher minimises for one (text box, cell) pair, in the
      order the sort key compares it: `1 - iou` first, then the corner
      distance. The source stores the pair as `(distance, 1 - iou)` and swaps
      it only in the sort key; the model keeps the swapped order throughout,
      which changes neither the comparison nor the equality `index` uses. */
  datatype CellKey = CellKey(gap: real, dist: real)

  /** Lexicographic order on keys, as Python compares the sort-key tuple
      `(1 - iou, distance)`. */
  predicate CellKeyLe(a: CellKey, b: CellKey)
  {
    a.gap < b.gap || (a.gap == b.gap && a.dist <= b.dist)
  }

  function KeyOf<T, C>(gtBox: T, predBox: C, distance: (T, C) -> real, iou: (T, C) -> real): CellKey
  {
    CellKey(1.0 - iou(gtBox, predBox), distance(gtBox, predBox))
  }

  /** The keys of one text box against every cell, in cell order. */
  function Keys<T, C>(gtBox: T, predBboxes: seq<C>, distance: (T, C) -> real, iou: (T, C) -> real): (ks: seq<CellKey>)
    ensures |ks| == |predBboxes|
    ensures forall j :: 0 <= j < |predBboxes| ==> ks[j] == KeyOf(gtBox, predBboxes[j], distance, iou)
  {
    seq(|predBboxes|, j requires 0 <= j < |predBboxes| => KeyOf(gtBox, predBboxes[j], distance, iou))
  }

  /** The index `distances.index(sorted(distances)[0])` picks: the stable sort
      puts the first of the smallest keys in front, and `index` finds the
      first entry equal to it. */
  function FirstMinIndex(keys: seq<CellKey>): (j: nat)
    requires |keys| > 0
    ensures j < |keys|
  {
    if |keys| == 1 then 0
    else
      var m := FirstMinIndex(keys[..|keys| - 1]);
      if CellKeyLe(keys[m], keys[|keys| - 1]) then m else |keys| - 1
  }

  /** The chosen entry has the smallest key, and every entry before it has a
      strictly greater key: among equal smallest keys the lowest index wins. */
  lemma {:induction false} FirstMinIndexIsFirstMinimum(keys: seq<CellKey>)
    requires |keys| > 0
    ensures forall k :: 0 <= k < |keys| ==> CellKeyLe(keys[FirstMinIndex(keys)], keys[k])
    ensures forall k :: 0 <= k < FirstMinIndex(keys) ==> !CellKeyLe(keys[k], keys[FirstMinIndex(keys)])
  {
    if |keys| > 1 {
      FirstMinIndexIsFirstMinimum(keys[..|keys| - 1]);
    }
  }

  /** The cell `match_result` chooses for one text box. */
  function Nearest<T, C>(gtBox: T, predBboxes: seq<C>, distance: (T, C) -> real, iou: (T, C) -> real): (j: nat)
    requires |predBboxes| > 0
    ensures j < |predBboxes|
  {
    FirstMinIndex(Keys(gtBox, predBboxes, distance, iou))
  }

  /** The chosen cell's `(1 - iou, distance)` key is lexicographically no
      greater than any other cell's, and every cell before it has a strictly
      greater key: on ties the lowest cell index wins. */
  lemma NearestIsFirstMinimum<T, C>(gtBox: T, predBboxes: seq<C>, distance: (T, C) -> real, iou: (T, C) -> real)
    requires |predBboxes| > 0
    ensures forall j :: 0 <= j < |predBboxes| ==>
      CellKeyLe(KeyOf(gtBox, predBboxes[Nearest(gtBox, predBboxes, distance, iou)], distance, iou), KeyOf(gtBox, predBboxes[j], distance, iou))
    ensures forall j :: 0 <= j < Nearest(gtBox, predBboxes, distance, iou) ==>
      !CellKeyLe(KeyOf(gtBox, predBboxes[j], distance, iou), KeyOf(gtBox, predBboxes[Nearest(gtBox, predBboxes, distance, iou)], distance, iou))
  {
    FirstMinIndexIsFirstMinimum(Keys(gtBox, predBboxes, distance, iou));
  }

  /** The cell chosen for text box `i` of `dtBoxes`, for every `i`. */
  function Assignment<T, C>(dtBoxes: seq<T>, predBboxes: seq<C>, distance: (T, C) -> real, iou: (T, C) -> real): (owner: seq<nat>)
    requires |dtBoxes| == 0 || |predBboxes| > 0
    ensures |owner| == |dtBoxes|
  {
    seq(|dtBoxes|, i requires 0 <= i < |dtBoxes| => Nearest(dtBoxes[i], predBboxes, distance, iou))
  }

  /** One update of the match map: append text index `i` to cell `c`'s list,
      creating the list if the cell has none yet. */
  function AddTo(matched: map<nat, seq<nat>>, c: nat, i: nat): (r: map<nat, seq<nat>>)
    ensures r.Keys == matched.Keys + {c}
    ensures r[c] == (if c in matched then matched[c] else []) + [i]
    ensures forall d :: d in matched && d != c ==> r[d] == matched[d]
  {
    if c !in matched then matched[c := [i]] else matched[c := matched[c] + [i]]
  }

  predicate Increasing(s: seq<nat>)
  {
    forall p, q :: 0 <= p < q < |s| ==> s[p] < s[q]
  }

  /** The match map built from the chosen cells, one text index at a time. */
  function GroupByCell(owner: seq<nat>): map<nat, seq<nat>>
  {
    if owner == [] then map[]
    else AddTo(GroupByCell(owner[..|owner| - 1]), owner[|owner| - 1], |owner| - 1)
  }

  /** `m` groups the first `n` text indices by their cell in `owner`: each
      sits in the list of its own cell, every listed index is one of them
      and chose that cell, and every list is non-empty and increasing. */
  ghost predicate GroupsFirst(owner: seq<nat>, n: nat, m: map<nat, seq<nat>>)
    requires n <= |owner|
  {
    (forall i :: 0 <= i < n ==> owner[i] in m && i in m[owner[i]]) &&
    (forall c, k :: c in m && 0 <= k < |m[c]| ==> m[c][k] < n && owner[m[c][k]] == c) &&
    (forall c :: c in m ==> |m[c]| > 0 && Increasing(m[c]))
  }

  /** Appending text index `n` to the map of the earlier ones keeps the
      grouping. */
  lemma GroupStep(owner: seq<nat>, n: nat, prev: map<nat, seq<nat>>)
    requires n < |owner| && GroupsFirst(owner, n, prev)
    ensures GroupsFirst(owner, n + 1, AddTo(prev, owner[n], n))
  {
    var c := owner[n];
    var next := AddTo(prev, c, n);
    var before := if c in prev then prev[c] else [];
    assert next[c] == before + [n];
    forall i | 0 <= i < n + 1
      ensures owner[i] in next && i in next[owner[i]]
    {
      if i == n {
        assert next[c][|before|] == n;
      } else if owner[i] == c {
        assert i in before;
      }
    }
    forall d, k | d in next && 0 <= k < |next[d]|
      ensures next[d][k] < n + 1 && owner[next[d][k]] == d
    {
      if d == c && k < |before| {
        assert next[d][k] == prev[c][k];
      }
    }
    forall d | d in next
      ensures |next[d]| > 0 && Increasing(next[d])
    {
      if d == c && c in prev {
        assert forall k :: 0 <= k < |before| ==> before[k] < n;
      }
    }
  }

  lemma {:induction false} GroupByCellPrefix(owner: seq<nat>, n: nat)
    requires n <= |owner|
    ensures GroupsFirst(owner, n, GroupByCell(owner[..n]))
  {
    if n > 0 {
      GroupByCellPrefix(owner, n - 1);
      assert owner[..n][..n - 1] == owner[..n - 1] && owner[..n][n - 1] == owner[n - 1];
      assert GroupByCell(owner[..n]) == AddTo(GroupByCell(owner[..n - 1]), owner[n - 1], n - 1);
      GroupStep(owner, n - 1, GroupByCell(owner[..n - 1]));
    }
  }

  /** Every text index sits in the list of its own cell and in no other list,
      every key is a chosen cell, and every list is non-empty and strictly
      increasing (the order the text boxes were processed in). */
  lemma GroupByCellPartitions(owner: seq<nat>)
    ensures var m := GroupByCell(owner);
      forall i :: 0 <= i < |owner| ==> owner[i] in m && i in m[owner[i]]
    ensures var m := GroupByCell(owner);
      forall c, k :: c in m && 0 <= k < |m[c]| ==> m[c][k] < |owner| && owner[m[c][k]] == c
    ensures var m := GroupByCell(owner);
      forall c :: c in m ==> |m[c]| > 0 && Increasing(m[c])
  {
    GroupByCellPrefix(owner, |owner|);
    assert owner[..|owner|] == owner;
  }

  /** The match map `match_result` returns for these boxes and cells. */
  function MatchMap<T, C>(dtBoxes: seq<T>, predBboxes: seq<C>, distance: (T, C) -> real, iou: (T, C) -> real): map<nat, seq<nat>>
    requires |dtBoxes| == 0 || |predBboxes| > 0
  {
    GroupByCell(Assignment(dtBoxes, predBboxes, distance, iou))
  }

  /** Taking one more text box into account appends its index to the list
      of the cell it chooses. */
  lemma MatchStep<T, C>(dtBoxes: seq<T>, predBboxes: seq<C>, distance: (T, C) -> real, iou: (T, C) -> real, i: nat)
    requires i < |dtBoxes| && |predBboxes| > 0
    ensures GroupByCell(Assignment(dtBoxes[..i + 1], predBboxes, distance, iou)) ==
      AddTo(GroupByCell(Assignment(dtBoxes[..i], predBboxes, distance, iou)),
            Nearest(dtBoxes[i], predBboxes, distance, iou), i)
  {
    var owner := Assignment(dtBoxes[..i + 1], predBboxes, distance, iou);
    assert owner[..i] == Assignment(dtBoxes[..i], predBboxes, distance, iou);
  }

  /** What `match_result` promises about its map: every key is a valid cell
      index; every text index `0 .. n-1` appears in the list of the cell
      chosen for it and in no other list; and every list is non-empty and
      strictly increasing. */
  lemma MatchMapPartition<T, C>(dtBoxes: seq<T>, predBboxes: seq<C>, distance: (T, C) -> real, iou: (T, C) -> real)
    requires |dtBoxes| == 0 || |predBboxes| > 0
    ensures var m := MatchMap(dtBoxes, predBboxes, distance, iou);
      forall c :: c in m ==> c < |predBboxes| && |m[c]| > 0 && Increasing(m[c])
    ensures var m := MatchMap(dtBoxes, predBboxes, distance, iou);
      forall c, k :: c in m && 0 <= k < |m[c]| ==>
        m[c][k] < |dtBoxes| && Nearest(dtBoxes[m[c][k]], predBboxes, distance, iou) == c
    ensures var m := MatchMap(dtBoxes, predBboxes, distance, iou);
      forall i :: 0 <= i < |dtBoxes| ==>
        Nearest(dtBoxes[i], predBboxes, distance, iou) in m && i in m[Nearest(dtBoxes[i], predBboxes, distance, iou)]
  {
    var owner := Assignment(dtBoxes, predBboxes, distance, iou);
    var m := GroupByCell(owner);
    GroupByCellPartitions(owner);
    forall c | c in m ensures c < |predBboxes| {
      assert owner[m[c][0]] == c;
    }
    forall c, k | c in m && 0 <= k < |m[c]|
      ensures m[c][k] < |dtBoxes| && Nearest(dtBoxes[m[c][k]], predBboxes, distance, iou) == c
    {
      assert owner[m[c][k]] == c;
    }
    forall i | 0 <= i < |dtBoxes|
      ensures Nearest(dtBoxes[i], predBboxes, distance, iou) in m
      ensures i in m[Nearest(dtBoxes[i], predBboxes, distance, iou)]
    {
      assert owner[i] == Nearest(dtBoxes[i], predBboxes, distance, iou);
    }
  }

  /** `match_result`: for each text box in order, compute its key against
      every cell, pick the first smallest, and append the box's index to that
      cell's list. With no cells and at least one text box the source fails
      on `sorted_distances[0]`. */
  method MatchResult<T, C>(dtBoxes: seq<T>, predBboxes: seq<C>, distance: (T, C) -> real, iou: (T, C) -> real)
    returns (r: Result<map<nat, seq<nat>>>)
    ensures r.Err? <==> |predBboxes| == 0 && |dtBoxes| > 0
    ensures r.Err? ==> r.error == EmptyStructure
    ensures r.Ok? ==> r.value == MatchMap(dtBoxes, predBboxes, distance, iou)
  {
    var matched: map<nat, seq<nat>> := map[];
    var i := 0;
    while i < |dtBoxes|
      invariant 0 <= i <= |dtBoxes|
      invariant i == 0 || |predBboxes| > 0
      invariant matched == GroupByCell(Assignment(dtBoxes[..i], predBboxes, distance, iou))
    {
      var gtBox := dtBoxes[i];
      var distances: seq<CellKey> := [];
      for j := 0 to |predBboxes|
        invariant |distances| == j
        invariant forall k :: 0 <= k < j ==> distances[k] == KeyOf(gtBox, predBboxes[k], distance, iou)
      {
        distances := distances + [KeyOf(gtBox, predBboxes[j], distance, iou)];
      }
      if |distances| == 0 {
        return Err(EmptyStructure);
      }
      assert distances == Keys(gtBox, predBboxes, distance, iou);
      var best := FirstMinIndex(distances);
      assert best == Nearest(gtBox, predBboxes, distance, iou);
      MatchStep(dtBoxes, predBboxes, distance, iou, i);
      if best !in matched {
        matched := matched[best := [i]];
      } else {
        matched := matched[best := matched[best] + [i]];
      }
      i := i + 1;
    }
    assert dtBoxes[..i] == dtBoxes;
    return Ok(matched);
  }
}
