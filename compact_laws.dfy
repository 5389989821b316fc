/** What compact guarantees: the frame it keeps, the overlaps it removes,
    and that a layout without overlaps is a fixpoint. */
module CompactionLaws {
  import opened GridItems
  import opened Collision
  import opened Ordering
  import opened Compactor

  /** What compact may do to one item: only `y` and `moved` change; a static
      item keeps its row; a row at or below 0 stays so; without vertical
      compaction no item goes up; a cleared `moved` stays cleared. */
  predicate Kept(a: Item, b: Item, verticalCompact: bool) {
    b.x == a.x && b.w == a.w && b.h == a.h && b.isStatic == a.isStatic &&
    (a.isStatic ==> b.y == a.y) &&
    (a.y >= 0 ==> b.y >= 0) &&
    (!verticalCompact ==> b.y >= a.y) &&
    (!a.moved ==> !b.moved)
  }

  predicate KeepsFrame(s: Layout, r: Layout, verticalCompact: bool)
    requires |r| == |s|
  {
    forall j :: 0 <= j < |s| ==> Kept(s[j], r[j], verticalCompact)
  }

  /** The loop keeps the frame, and clears `moved` on every item it visits. */
  lemma {:induction false} CompactFromFrame(s: Layout, order: View, i: nat, compareWith: View, verticalCompact: bool)
    requires ValidView(s, order) && ValidView(s, compareWith) && i <= |order|
    ensures var r := CompactFrom(s, order, i, compareWith, verticalCompact);
            KeepsFrame(s, r, verticalCompact) &&
            forall t :: i <= t < |order| ==> !r[order[t]].moved
    decreases |order| - i
  {
    if i < |order| {
      var j := order[i];
      var next := PlaceStep(s, compareWith, j, verticalCompact);
      var r := CompactFrom(s, order, i, compareWith, verticalCompact);
      assert r == CompactFrom(next, order, i + 1, PlaceObstacles(s, compareWith, j), verticalCompact);
      CompactFromFrame(next, order, i + 1, PlaceObstacles(s, compareWith, j), verticalCompact);
      assert KeepsFrame(s, next, verticalCompact);
      forall k | 0 <= k < |s| ensures Kept(s[k], r[k], verticalCompact) {
        assert Kept(s[k], next[k], verticalCompact) && Kept(next[k], r[k], verticalCompact);
      }
    }
  }

  /** compact's frame: every item keeps `x`, `w`, `h` and `isStatic`, static
      items keep their row, `y >= 0` is preserved, without vertical
      compaction no item rises, and `moved` is false on every item. */
  lemma CompactedFrame(s: Layout, verticalCompact: bool)
    ensures KeepsFrame(s, Compacted(s, verticalCompact), verticalCompact)
    ensures forall j :: 0 <= j < |s| ==> !Compacted(s, verticalCompact)[j].moved
  {
    var sorted := SortByRowCol(s);
    CompactFromFrame(s, sorted, 0, Statics(s), verticalCompact);
    SortByRowColSortedPermutation(s);
    forall j | 0 <= j < |s| ensures !Compacted(s, verticalCompact)[j].moved {
      assert j in sorted;
      var t :| 0 <= t < |sorted| && sorted[t] == j;
    }
  }

  /** Slots `a` and `b` do not overlap, unless both are static. */
  predicate Apart(s: Layout, a: nat, b: nat)
    requires a < |s| && b < |s|
  {
    (s[a].isStatic && s[b].isStatic) || !Collides(s[a], a, s[b], b)
  }

  /** No pair of obstacles overlaps, except two static ones. */
  predicate Separated(s: Layout, compareWith: View)
    requires ValidView(s, compareWith)
  {
    forall p, q :: 0 <= p < |compareWith| && 0 <= q < |compareWith| ==> Apart(s, compareWith[p], compareWith[q])
  }

  /** No non-static item overlaps any other item. */
  predicate NoLiveCollisions(s: Layout) {
    forall a, b :: 0 <= a < |s| && 0 <= b < |s| ==> Apart(s, a, b)
  }

  /** Changing only the `moved` marks leaves every pair as apart as before. */
  lemma ApartIgnoresMoved(s: Layout, s': Layout, a: nat, b: nat)
    requires |s'| == |s| && a < |s| && b < |s|
    requires SameRect(s[a], s'[a]) && SameRect(s[b], s'[b])
    requires s'[a].isStatic == s[a].isStatic && s'[b].isStatic == s[b].isStatic
    ensures Apart(s', a, b) == Apart(s, a, b)
  {
    CollidesSameRects(s[a], s'[a], a, s[b], s'[b], b);
  }

  /** The obstacles of the loop at position `i`: every static item and every
      item visited so far, and no other. */
  predicate Tracks(s: Layout, order: View, i: nat, compareWith: View)
    requires ValidView(s, order) && ValidView(s, compareWith) && i <= |order|
  {
    (forall t :: 0 <= t < |compareWith| ==> s[compareWith[t]].isStatic || compareWith[t] in order[..i]) &&
    (forall j :: 0 <= j < |s| && s[j].isStatic ==> j in compareWith) &&
    (forall t :: 0 <= t < i ==> order[t] in compareWith)
  }

  /** Placing a non-static item at a row where it meets no obstacle, and making
      it an obstacle, keeps the obstacles separated. */
  lemma SeparatedStep(s: Layout, compareWith: View, j: nat, y: int)
    requires j < |s| && ValidView(s, compareWith) && Separated(s, compareWith)
    requires forall t :: 0 <= t < |compareWith| ==> compareWith[t] != j
    requires forall t :: 0 <= t < |compareWith| ==> !Collides(s[compareWith[t]], compareWith[t], At(s, j, y), j)
    ensures Separated(s[j := s[j].(y := y, moved := false)], compareWith + [j])
  {
    var s' := s[j := s[j].(y := y, moved := false)];
    var cw' := compareWith + [j];
    forall p, q | 0 <= p < |cw'| && 0 <= q < |cw'| ensures Apart(s', cw'[p], cw'[q]) {
      if p < |compareWith| && q < |compareWith| {
        assert cw'[p] == compareWith[p] && cw'[q] == compareWith[q];
        assert Apart(s, compareWith[p], compareWith[q]);
      } else if p < |compareWith| {
        assert cw'[p] == compareWith[p] && cw'[q] == j;
        CollidesSameRects(s[compareWith[p]], s'[compareWith[p]], compareWith[p], At(s, j, y), s'[j], j);
      } else if q < |compareWith| {
        assert cw'[q] == compareWith[q] && cw'[p] == j;
        CollidesSameRects(s[compareWith[q]], s'[compareWith[q]], compareWith[q], At(s, j, y), s'[j], j);
        CollidesSymmetric(s'[j], j, s'[compareWith[q]], compareWith[q]);
      }
    }
  }

  /** One step of the loop keeps the obstacles tracked and separated. */
  lemma {:induction false} PlaceKeepsSeparated(s: Layout, order: View, i: nat, compareWith: View, verticalCompact: bool)
    requires ValidView(s, order) && ValidView(s, compareWith) && i < |order| && Distinct(order)
    requires Tracks(s, order, i, compareWith) && Separated(s, compareWith)
    ensures var next := PlaceStep(s, compareWith, order[i], verticalCompact);
            var cw := PlaceObstacles(s, compareWith, order[i]);
            Tracks(next, order, i + 1, cw) && Separated(next, cw)
  {
    var j := order[i];
    var next := PlaceStep(s, compareWith, j, verticalCompact);
    var cw := PlaceObstacles(s, compareWith, j);
    forall x | x in order[..i] ensures x in order[..i + 1] {
      var u :| 0 <= u < i && order[u] == x;
      assert order[..i + 1][u] == x;
    }
    assert order[..i + 1][i] == j;
    if s[j].isStatic {
      forall p, q | 0 <= p < |compareWith| && 0 <= q < |compareWith|
        ensures Apart(next, compareWith[p], compareWith[q])
      {
        assert Apart(s, compareWith[p], compareWith[q]);
        ApartIgnoresMoved(s, next, compareWith[p], compareWith[q]);
      }
    } else {
      var start := if verticalCompact then Climb(s, compareWith, j, s[j].y) else s[j].y;
      var y := Drop(s, compareWith, j, start);
      DropFree(s, compareWith, j, start);
      FirstCollisionIsFirst(s, compareWith, At(s, j, y), j);
      assert forall t :: 0 <= t < |compareWith| ==> compareWith[t] != j;
      SeparatedStep(s, compareWith, j, y);
      assert next == s[j := s[j].(y := y, moved := false)];
    }
  }

  /** From position `i` on, the loop leaves every visited item apart from
      every other visited item. */
  lemma {:induction false} CompactFromSeparates(s: Layout, order: View, i: nat, compareWith: View, verticalCompact: bool)
    requires ValidView(s, order) && ValidView(s, compareWith) && i <= |order| && Distinct(order)
    requires Tracks(s, order, i, compareWith) && Separated(s, compareWith)
    ensures var r := CompactFrom(s, order, i, compareWith, verticalCompact);
            forall p, q :: 0 <= p < |order| && 0 <= q < |order| ==> Apart(r, order[p], order[q])
    decreases |order| - i
  {
    if i == |order| {
      forall p, q | 0 <= p < |order| && 0 <= q < |order| ensures Apart(s, order[p], order[q]) {
        var u :| 0 <= u < |compareWith| && compareWith[u] == order[p];
        var v :| 0 <= v < |compareWith| && compareWith[v] == order[q];
      }
    } else {
      var j := order[i];
      PlaceKeepsSeparated(s, order, i, compareWith, verticalCompact);
      CompactFromSeparates(PlaceStep(s, compareWith, j, verticalCompact), order, i + 1,
                           PlaceObstacles(s, compareWith, j), verticalCompact);
    }
  }

  /** After compact, no non-static item collides with any other item, static
      or not. */
  lemma CompactedNoLiveCollisions(s: Layout, verticalCompact: bool)
    ensures NoLiveCollisions(Compacted(s, verticalCompact))
  {
    var sorted := SortByRowCol(s);
    var statics := Statics(s);
    var r := Compacted(s, verticalCompact);
    SortByRowColDistinct(s);
    StaticsSelects(s);
    assert Separated(s, statics) by {
      forall p, q | 0 <= p < |statics| && 0 <= q < |statics| ensures Apart(s, statics[p], statics[q]) {
        assert s[statics[p]].isStatic && s[statics[q]].isStatic;
      }
    }
    assert sorted[..0] == [];
    CompactFromSeparates(s, sorted, 0, statics, verticalCompact);
    SortByRowColSortedPermutation(s);
    forall a, b | 0 <= a < |r| && 0 <= b < |r| ensures Apart(r, a, b) {
      assert a in sorted && b in sorted;
      var p :| 0 <= p < |sorted| && sorted[p] == a;
      var q :| 0 <= q < |sorted| && sorted[q] == b;
    }
  }

  /** The layout with every `moved` mark cleared. */
  function ClearMoved(s: Layout): (r: Layout)
    ensures |r| == |s|
    ensures forall j :: 0 <= j < |s| ==> r[j] == s[j].(moved := false)
  {
    seq(|s|, j requires 0 <= j < |s| => s[j].(moved := false))
  }

  /** Clearing the marks twice is clearing them once, and it keeps a layout
      free of overlaps. */
  lemma ClearMovedKeepsApart(s: Layout)
    ensures ClearMoved(ClearMoved(s)) == ClearMoved(s)
    ensures NoLiveCollisions(s) ==> NoLiveCollisions(ClearMoved(s))
  {
    var r := ClearMoved(s);
    if NoLiveCollisions(s) {
      forall a, b | 0 <= a < |s| && 0 <= b < |s| ensures Apart(r, a, b) {
        assert Apart(s, a, b);
        ApartIgnoresMoved(s, r, a, b);
      }
    }
  }

  /** On a layout without overlaps, one iteration of the loop only clears
      `moved`: the item is already at a free row, and neither loop of
      compactItem runs. */
  lemma PlaceFree(s: Layout, compareWith: View, j: nat, verticalCompact: bool)
    requires j < |s| && ValidView(s, compareWith) && NoLiveCollisions(s)
    ensures PlaceStep(s, compareWith, j, verticalCompact) == s[j := s[j].(moved := false)]
  {
    if !s[j].isStatic {
      FirstCollisionIsFirst(s, compareWith, At(s, j, s[j].y), j);
      assert At(s, j, s[j].y) == s[j];
      forall t | 0 <= t < |compareWith| ensures !Collides(s[compareWith[t]], compareWith[t], s[j], j) {
        assert Apart(s, compareWith[t], j);
      }
      CompactedYFree(s, compareWith, j, verticalCompact);
    }
  }

  /** Clearing one `moved` mark keeps a layout free of overlaps. */
  lemma ClearOneKeepsApart(s: Layout, j: nat)
    requires j < |s| && NoLiveCollisions(s)
    ensures NoLiveCollisions(s[j := s[j].(moved := false)])
  {
    var next := s[j := s[j].(moved := false)];
    forall a, b | 0 <= a < |s| && 0 <= b < |s| ensures Apart(next, a, b) {
      assert Apart(s, a, b);
      ApartIgnoresMoved(s, next, a, b);
    }
  }

  /** On a layout without overlaps, the loop only clears `moved`. */
  lemma {:induction false} CompactFromFixpoint(s: Layout, order: View, i: nat, compareWith: View, verticalCompact: bool)
    requires ValidView(s, order) && ValidView(s, compareWith) && i <= |order|
    requires NoLiveCollisions(s)
    requires forall j :: 0 <= j < |s| && s[j].moved ==> j in order[i..]
    ensures CompactFrom(s, order, i, compareWith, verticalCompact) == ClearMoved(s)
    decreases |order| - i
  {
    if i == |order| {
      assert ClearMoved(s) == s;
    } else {
      var j := order[i];
      var next := s[j := s[j].(moved := false)];
      PlaceFree(s, compareWith, j, verticalCompact);
      ClearOneKeepsApart(s, j);
      forall k | 0 <= k < |s| && next[k].moved ensures k in order[i + 1..] {
        assert k in order[i..];
        var u :| 0 <= u < |order[i..]| && order[i..][u] == k;
        assert u != 0;
        assert order[i + 1..][u - 1] == k;
      }
      CompactFromFixpoint(next, order, i + 1, PlaceObstacles(s, compareWith, j), verticalCompact);
      assert CompactFrom(s, order, i, compareWith, verticalCompact) ==
             CompactFrom(next, order, i + 1, PlaceObstacles(s, compareWith, j), verticalCompact);
      assert ClearMoved(next) == ClearMoved(s);
    }
  }

  /** Compacting a layout in which no non-static item collides with another
      item changes no coordinate; it only clears `moved`. */
  lemma CompactedFixpoint(s: Layout, verticalCompact: bool)
    requires NoLiveCollisions(s)
    ensures Compacted(s, verticalCompact) == ClearMoved(s)
  {
    var sorted := SortByRowCol(s);
    SortByRowColSortedPermutation(s);
    assert sorted[0..] == sorted;
    CompactFromFixpoint(s, sorted, 0, Statics(s), verticalCompact);
  }

  /** A second compaction, with either setting, changes nothing. */
  lemma CompactedIdempotent(s: Layout, verticalCompact: bool, again: bool)
    ensures Compacted(Compacted(s, verticalCompact), again) == Compacted(s, verticalCompact)
  {
    var r := Compacted(s, verticalCompact);
    CompactedNoLiveCollisions(s, verticalCompact);
    CompactedFrame(s, verticalCompact);
    CompactedFixpoint(r, again);
    assert ClearMoved(r) == r;
  }

  /** The climb as written leaves a lone item where it is: compacting one
      item at row 3 with vertical compaction keeps it at row 3, while the
      intended climb takes it to row 0. */
  lemma ClimbLeavesGap()
    ensures var s := [Item(0, 3, 1, 1, false, false)];
            Compacted(s, true)[0].y == 3 && CompactedYCorrected(s, Statics(s), 0, true) == 0
  {
    var s := [Item(0, 3, 1, 1, false, false)];
    var none: View := [];
    assert Statics(s) == none;
    assert SortByRowCol(s) == [0];
    assert !Blocked(s, none, 0, 3) && !Blocked(s, none, 0, 0);
    assert Climb(s, none, 0, 3) == 3;
    assert Drop(s, none, 0, 3) == 3;
    assert Compacted(s, true) == CompactFrom(PlaceStep(s, none, 0, true), [0], 1, [0], true);
    assert ClimbCorrected(s, none, 0, 1) == 0;
    assert ClimbCorrected(s, none, 0, 3) == 0;
    assert Drop(s, none, 0, 0) == 0;
  }
}
