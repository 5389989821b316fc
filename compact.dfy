/** The compactor: compactItem and compact. */
module Compactor {
  import opened GridItems
  import opened Collision
  import opened Ordering

  /** The item in slot `k` tried at row `y`. */
  function At(s: Layout, k: nat, y: int): Item
    requires k < |s|
  {
    s[k].(y := y)
  }

  /** Row `y` is blocked for slot `k`: some obstacle in `compareWith` collides
      with the item placed there. */
  predicate Blocked(s: Layout, compareWith: View, k: nat, y: int)
    requires k < |s| && ValidView(s, compareWith)
  {
    FirstCollision(s, compareWith, At(s, k, y), k).Some?
  }

  /** Row `y` is blocked exactly when some obstacle collides with the item
      placed there. */
  lemma BlockedIff(s: Layout, compareWith: View, k: nat, y: int)
    requires k < |s| && ValidView(s, compareWith)
    ensures Blocked(s, compareWith, k, y) <==>
              exists t :: 0 <= t < |compareWith| && Collides(s[compareWith[t]], compareWith[t], At(s, k, y), k)
  {
    FirstCollisionIsFirst(s, compareWith, At(s, k, y), k);
  }

  /** `bottom` of the obstacles (Geometry.MaxBottom taken over a view rather
      than a layout): the lowest bottom edge among them, at least 0, so no
      obstacle reaches below it. */
  function ViewBottom(s: Layout, v: View): (m: int)
    requires ValidView(s, v)
    ensures m >= 0
    ensures forall t :: 0 <= t < |v| ==> s[v[t]].y + s[v[t]].h <= m
  {
    if v == [] then 0
    else
      var m0 := ViewBottom(s, v[1..]);
      Max(s[v[0]].y + s[v[0]].h, m0)
  }

  /** The first loop of compactItem, as written: while the row is above 0 and
      the item at it collides, one row up. */
  function Climb(s: Layout, compareWith: View, k: nat, y: int): (r: int)
    requires k < |s| && ValidView(s, compareWith)
    ensures r <= y
    ensures y >= 0 ==> r >= 0
    decreases y
  {
    if y > 0 && Blocked(s, compareWith, k, y) then Climb(s, compareWith, k, y - 1) else y
  }

  /** The climb only passes through blocked rows, and it stops at row 0 or at
      a free row. */
  lemma {:induction false} ClimbStops(s: Layout, compareWith: View, k: nat, y: int)
    requires k < |s| && ValidView(s, compareWith)
    ensures var r := Climb(s, compareWith, k, y);
      (r <= 0 || !Blocked(s, compareWith, k, r)) &&
      (forall z :: r < z <= y ==> Blocked(s, compareWith, k, z))
    decreases y
  {
    if y > 0 && Blocked(s, compareWith, k, y) {
      ClimbStops(s, compareWith, k, y - 1);
    }
  }

  /** The second loop of compactItem: while the item collides, put it just
      below the first obstacle it collides with. Each step goes strictly
      down and no obstacle ends below the lowest bottom among them, so the
      loop ends, no higher than where it started. */
  function Drop(s: Layout, compareWith: View, k: nat, y: int): (r: int)
    requires k < |s| && ValidView(s, compareWith)
    ensures r >= y
    decreases ViewBottom(s, compareWith) - y
  {
    match FirstCollider(s, compareWith, At(s, k, y), k)
    case None => y
    case Some(c) => Drop(s, compareWith, k, s[c].y + s[c].h)
  }

  /** The drop ends at a free row. */
  lemma {:induction false} DropFree(s: Layout, compareWith: View, k: nat, y: int)
    requires k < |s| && ValidView(s, compareWith)
    ensures !Blocked(s, compareWith, k, Drop(s, compareWith, k, y))
    decreases ViewBottom(s, compareWith) - y
  {
    match FirstCollider(s, compareWith, At(s, k, y), k)
    case None =>
      assert Drop(s, compareWith, k, y) == y;
    case Some(c) =>
      DropFree(s, compareWith, k, s[c].y + s[c].h);
      assert Drop(s, compareWith, k, y) == Drop(s, compareWith, k, s[c].y + s[c].h);
  }

  /** One step of the second loop. */
  lemma DropStep(s: Layout, compareWith: View, k: nat, y: int, c: nat)
    requires k < |s| && ValidView(s, compareWith)
    requires FirstCollider(s, compareWith, At(s, k, y), k) == Some(c)
    ensures Drop(s, compareWith, k, y) == Drop(s, compareWith, k, s[c].y + s[c].h)
  {
  }

  /** The row compactItem leaves the item in slot `k` at. */
  function CompactedY(s: Layout, compareWith: View, k: nat, verticalCompact: bool): int
    requires k < |s| && ValidView(s, compareWith)
  {
    Drop(s, compareWith, k, if verticalCompact then Climb(s, compareWith, k, s[k].y) else s[k].y)
  }

  /** compactItem on a free row leaves the item where it is. */
  lemma CompactedYFree(s: Layout, compareWith: View, k: nat, verticalCompact: bool)
    requires k < |s| && ValidView(s, compareWith) && !Blocked(s, compareWith, k, s[k].y)
    ensures CompactedY(s, compareWith, k, verticalCompact) == s[k].y
  {
  }

  /** The first loop as evidently intended: while the row is above 0 and the
      item at it is free, one row up. The loop as written climbs only while
      blocked, so it never pulls an item that is free where it stands up
      into the gap above it. */
  function ClimbCorrected(s: Layout, compareWith: View, k: nat, y: int): (r: int)
    requires k < |s| && ValidView(s, compareWith)
    ensures r <= y
    ensures y >= 0 ==> r >= 0
    decreases y
  {
    if y > 0 && !Blocked(s, compareWith, k, y) then ClimbCorrected(s, compareWith, k, y - 1) else y
  }

  /** The intended climb passes only through free rows, and stops at row 0 or
      at the first blocked row. */
  lemma {:induction false} ClimbCorrectedStops(s: Layout, compareWith: View, k: nat, y: int)
    requires k < |s| && ValidView(s, compareWith)
    ensures var r := ClimbCorrected(s, compareWith, k, y);
      (r <= 0 || Blocked(s, compareWith, k, r)) &&
      (forall z :: r < z <= y ==> !Blocked(s, compareWith, k, z))
    decreases y
  {
    if y > 0 && !Blocked(s, compareWith, k, y) {
      ClimbCorrectedStops(s, compareWith, k, y - 1);
    }
  }

  /** The row compactItem would leave the item at with the intended climb. */
  function CompactedYCorrected(s: Layout, compareWith: View, k: nat, verticalCompact: bool): int
    requires k < |s| && ValidView(s, compareWith)
  {
    Drop(s, compareWith, k, if verticalCompact then ClimbCorrected(s, compareWith, k, s[k].y) else s[k].y)
  }

  /** A drop that starts at a blocked row ends right below an obstacle: one
      row higher, the item would collide again. */
  lemma {:induction false} DropRests(s: Layout, compareWith: View, k: nat, y: int)
    requires k < |s| && ValidView(s, compareWith) && s[k].h > 0
    requires forall t :: 0 <= t < |compareWith| ==> s[compareWith[t]].h > 0
    requires Blocked(s, compareWith, k, y)
    ensures Blocked(s, compareWith, k, Drop(s, compareWith, k, y) - 1)
    decreases ViewBottom(s, compareWith) - y
  {
    var p := FirstCollision(s, compareWith, At(s, k, y), k).value;
    var c := compareWith[p];
    var below := s[c].y + s[c].h;
    assert FirstCollider(s, compareWith, At(s, k, y), k) == Some(c);
    DropStep(s, compareWith, k, y, c);
    if Blocked(s, compareWith, k, below) {
      DropRests(s, compareWith, k, below);
    } else {
      assert Drop(s, compareWith, k, below) == below;
      assert Collides(s[c], c, At(s, k, below - 1), k);
      FirstCollisionIsFirst(s, compareWith, At(s, k, below - 1), k);
    }
  }

  /** With the intended climb, vertical compaction leaves no gap: the item
      ends at a free row that is row 0 or lies right below an obstacle. */
  lemma CompactedYCorrectedRests(s: Layout, compareWith: View, k: nat)
    requires k < |s| && ValidView(s, compareWith) && s[k].y >= 0 && s[k].h > 0
    requires forall t :: 0 <= t < |compareWith| ==> s[compareWith[t]].h > 0
    ensures var r := CompactedYCorrected(s, compareWith, k, true);
            r >= 0 && !Blocked(s, compareWith, k, r) &&
            (r == 0 || Blocked(s, compareWith, k, r - 1))
  {
    var start := ClimbCorrected(s, compareWith, k, s[k].y);
    ClimbCorrectedStops(s, compareWith, k, s[k].y);
    DropFree(s, compareWith, k, start);
    if Blocked(s, compareWith, k, start) {
      DropRests(s, compareWith, k, start);
    } else {
      assert Drop(s, compareWith, k, start) == start;
    }
  }

  /** compactItem as the source writes it: the two loops move the item in
      slot `k` row by row, then the item is stored back and returned. The
      loops work on a copy of the item; the collision scans skip slot `k` by
      identity, so no scan can tell the copy from the stored item. */
  method CompactItem(layout: array<Item>, compareWith: View, k: nat, verticalCompact: bool) returns (item: Item)
    requires k < layout.Length && ValidView(layout[..], compareWith)
    modifies layout
    ensures layout[..] == old(layout[..])[k := old(layout[k]).(y := CompactedY(old(layout[..]), compareWith, k, verticalCompact))]
    ensures item == layout[k]
  {
    ghost var s := layout[..];
    item := layout[k];
    if verticalCompact {
      while item.y > 0
        invariant layout[..] == s
        invariant item == At(s, k, item.y)
        invariant Climb(s, compareWith, k, item.y) == Climb(s, compareWith, k, s[k].y)
        decreases item.y
      {
        var hit := GetFirstCollision(layout, compareWith, item, k);
        if hit.None? {
          break;
        }
        item := item.(y := item.y - 1);
      }
    }
    ghost var start := item.y;
    var hit := GetFirstCollision(layout, compareWith, item, k);
    while hit.Some?
      invariant layout[..] == s
      invariant item == At(s, k, item.y)
      invariant Drop(s, compareWith, k, item.y) == Drop(s, compareWith, k, start)
      invariant hit == FirstCollider(s, compareWith, item, k)
      decreases ViewBottom(s, compareWith) - item.y
    {
      var c := hit.value;
      var below := layout[c].y + layout[c].h;
      DropStep(s, compareWith, k, item.y, c);
      assert below == s[c].y + s[c].h;
      item := item.(y := below);
      hit := GetFirstCollision(layout, compareWith, item, k);
    }
    layout[k] := item;
  }

  /** No entry of the view is listed twice. */
  predicate Distinct(v: View) {
    forall p, q :: 0 <= p < q < |v| ==> v[p] != v[q]
  }

  /** One iteration of compact's loop on the item in slot `j`: a static item
      only has `moved` cleared; any other item is compacted against the
      obstacles and has `moved` cleared. */
  function PlaceStep(s: Layout, compareWith: View, j: nat, verticalCompact: bool): (r: Layout)
    requires j < |s| && ValidView(s, compareWith)
    ensures |r| == |s|
  {
    if s[j].isStatic then s[j := s[j].(moved := false)]
    else s[j := s[j].(y := CompactedY(s, compareWith, j, verticalCompact), moved := false)]
  }

  /** The obstacles after that iteration: a compacted item joins them. */
  function PlaceObstacles(s: Layout, compareWith: View, j: nat): (r: View)
    requires j < |s| && ValidView(s, compareWith)
    ensures ValidView(s, r)
  {
    if s[j].isStatic then compareWith else compareWith + [j]
  }

  /** compact's loop from position `i` of the visiting order on. */
  function CompactFrom(s: Layout, order: View, i: nat, compareWith: View, verticalCompact: bool): (r: Layout)
    requires ValidView(s, order) && ValidView(s, compareWith) && i <= |order|
    ensures |r| == |s|
    decreases |order| - i
  {
    if i == |order| then s
    else
      var j := order[i];
      CompactFrom(PlaceStep(s, compareWith, j, verticalCompact), order, i + 1,
                  PlaceObstacles(s, compareWith, j), verticalCompact)
  }

  /** compact: the statics are the first obstacles, and the items are visited
      in row-major order. Each item is written back to its own slot. */
  function Compacted(s: Layout, verticalCompact: bool): (r: Layout)
    ensures |r| == |s|
  {
    CompactFrom(s, SortByRowCol(s), 0, Statics(s), verticalCompact)
  }

  /** The sorted copy lists no slot twice. */
  lemma SortByRowColDistinct(s: Layout)
    ensures Distinct(SortByRowCol(s))
  {
    var r := SortByRowCol(s);
    SortByRowColSortedPermutation(s);
    forall p, q | 0 <= p < q < |r| ensures r[p] != r[q] {
      assert RowColBefore(s, r[p], r[q]);
    }
  }

  /** Two layouts that agree at every slot the sorted copy lists are equal. */
  lemma CopiedAtEverySlot(s: Layout, a: Layout, b: Layout)
    requires |a| == |s| && |b| == |s|
    requires forall t :: 0 <= t < |s| ==> a[SortByRowCol(s)[t]] == b[SortByRowCol(s)[t]]
    ensures a == b
  {
    var sorted := SortByRowCol(s);
    SortByRowColSortedPermutation(s);
    forall j | 0 <= j < |s| ensures a[j] == b[j] {
      assert j in sorted;
      var t :| 0 <= t < |sorted| && sorted[t] == j;
    }
  }

  /** The body of compact's loop for the item in slot `j`: a non-static item
      is compacted and pushed onto the obstacles; either way the item is
      stored in the new array at its slot and has `moved` cleared. */
  method PlaceItem(layout: array<Item>, compacted: array<Item>, compareWith: View, j: nat, verticalCompact: bool)
    returns (obstacles: View)
    requires compacted != layout && j < layout.Length == compacted.Length
    requires ValidView(layout[..], compareWith)
    modifies layout, compacted
    ensures layout[..] == PlaceStep(old(layout[..]), compareWith, j, verticalCompact)
    ensures obstacles == PlaceObstacles(old(layout[..]), compareWith, j)
    ensures compacted[..] == old(compacted[..])[j := layout[j]]
  {
    var item := layout[j];
    obstacles := compareWith;
    if !item.isStatic {
      item := CompactItem(layout, compareWith, j, verticalCompact);
      obstacles := compareWith + [j];
    }
    layout[j] := layout[j].(moved := false);
    compacted[j] := layout[j];
  }

  /** compact as the source writes it: the items are compacted in place, in
      sorted order, and a new array receives each item at the slot it has in
      the layout. */
  method Compact(layout: array<Item>, verticalCompact: bool) returns (compacted: array<Item>)
    modifies layout
    ensures fresh(compacted)
    ensures layout[..] == Compacted(old(layout[..]), verticalCompact)
    ensures compacted[..] == layout[..]
  {
    ghost var s := layout[..];
    var compareWith := Statics(layout[..]);
    var sorted := SortByRowCol(layout[..]);
    SortByRowColDistinct(s);
    ghost var target := Compacted(s, verticalCompact);
    var length := |sorted|;
    compacted := new Item[length];
    var i := 0;
    while i < length
      invariant 0 <= i <= length
      invariant ValidView(s, compareWith)
      invariant CompactFrom(layout[..], sorted, i, compareWith, verticalCompact) == target
      invariant forall t :: 0 <= t < i ==> compacted[..][sorted[t]] == layout[..][sorted[t]]
    {
      var j := sorted[i];
      forall t | 0 <= t < i ensures sorted[t] != j {
      }
      compareWith := PlaceItem(layout, compacted, compareWith, j, verticalCompact);
      i := i + 1;
    }
    CopiedAtEverySlot(s, compacted[..], layout[..]);
  }
}
