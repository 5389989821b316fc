/** The move resolver: moveElement and moveElementAwayFromCollision.

    The two source routines call each other, and the cascade has no simple
    decreasing measure (an item pushed off a static item can be nudged
    again and again). A `fuel` argument bounds the depth of displacement:
    each displacement uses one unit, and a displacement asked for with no
    fuel left is not carried out. */
module MoveResolver {
  import opened GridItems
  import opened Collision
  import opened Ordering

  /** `const movingUp = y && oldY > y`: a target of row 0 is falsy, so a
      move to row 0 never counts as moving up. */
  function MovingUp(oldY: int, y: int): (up: bool)
    ensures up ==> y < oldY
    ensures y == 0 ==> !up
    ensures y != 0 && y < oldY ==> up
  {
    y != 0 && oldY > y
  }

  /** The layout once the moving item in slot `k` has taken its target:
      `x` when one is given, always `y`, and the `moved` marker. */
  function Placed(s: Layout, k: nat, x: Option<int>, y: int): (r: Layout)
    requires k < |s|
    ensures |r| == |s|
  {
    s[k := s[k].(x := if x.Some? then x.value else s[k].x, y := y, moved := true)]
  }

  /** The order in which collisions are visited: the row-column sorted copy,
      reversed when moving up. */
  function VisitOrder(s: Layout, oldY: int, y: int): (r: View)
    ensures |r| == |s|
    ensures ValidView(s, r)
  {
    var sorted := SortByRowCol(s);
    if MovingUp(oldY, y) then Reverse(sorted) else sorted
  }

  /** Either way, every slot is visited. */
  lemma VisitOrderListsEverySlot(s: Layout, oldY: int, y: int)
    ensures forall j :: 0 <= j < |s| ==> j in VisitOrder(s, oldY, y)
  {
    var sorted := SortByRowCol(s);
    SortByRowColSortedPermutation(s);
    forall j | 0 <= j < |s| ensures j in VisitOrder(s, oldY, y) {
      assert j in sorted;
      var p :| 0 <= p < |sorted| && sorted[p] == j;
      assert Reverse(sorted)[|sorted| - 1 - p] == j;
    }
  }

  /** The collisions of the item in slot `k` once it stands at its target. */
  function TargetCollisions(s: Layout, k: nat, x: Option<int>, y: int): (r: View)
    requires k < |s|
    ensures ValidView(s, r)
  {
    var placed := Placed(s, k, x, y);
    AllCollisions(placed, VisitOrder(placed, s[k].y, y), k)
  }

  /** moveElement (functional form): the layout after moving slot `k` to
      (`x`, `y`). A static item is left where it is. */
  function Move(s: Layout, k: nat, x: Option<int>, y: int, isUserAction: bool,
                preventCollision: bool, fuel: nat): (r: Layout)
    requires k < |s|
    ensures |r| == |s|
    ensures s[k].isStatic ==> r == s
    decreases fuel, 3
  {
    if s[k].isStatic then s
    else
      var placed := Placed(s, k, x, y);
      var collisions := TargetCollisions(s, k, x, y);
      if preventCollision && |collisions| > 0 then
        placed[k := placed[k].(x := s[k].x, y := s[k].y, moved := false)]
      else
        Resolve(placed, k, collisions, 0, isUserAction, fuel)
  }

  /** The loop of moveElement over the collision list, from entry `i` on.
      The list was computed once, but each entry is visited in the layout
      as the earlier visits left it. */
  function Resolve(s: Layout, k: nat, collisions: View, i: nat, isUserAction: bool, fuel: nat): (r: Layout)
    requires k < |s| && ValidView(s, collisions) && i <= |collisions|
    ensures |r| == |s|
    decreases fuel, 2, |collisions| - i
  {
    if i == |collisions| then s
    else Resolve(Visit(s, k, collisions[i], isUserAction, fuel), k, collisions, i + 1, isUserAction, fuel)
  }

  /** Resolve from entry `i` is one visit followed by Resolve from `i + 1`,
      so a loop that has carried out the visits before `i` and then visits
      entry `i` still has the same result ahead of it. */
  lemma ResolveStep(s: Layout, s': Layout, placed: Layout, k: nat, collisions: View, i: nat,
                    isUserAction: bool, fuel: nat)
    requires k < |s| && ValidView(s, collisions) && i < |collisions| && k < |placed| && ValidView(placed, collisions)
    requires s' == Visit(s, k, collisions[i], isUserAction, fuel)
    requires Resolve(s, k, collisions, i, isUserAction, fuel) == Resolve(placed, k, collisions, 0, isUserAction, fuel)
    ensures Resolve(s', k, collisions, i + 1, isUserAction, fuel) == Resolve(placed, k, collisions, 0, isUserAction, fuel)
  {
  }

  /** One turn of that loop, for collision `c` of the moving item `k`: an
      item already moved is skipped, and so is one the moving item has
      entered by more than a quarter of its height from below; a static
      collision pushes the moving item away, any other collision is pushed
      away itself. */
  function Visit(s: Layout, k: nat, c: nat, isUserAction: bool, fuel: nat): (r: Layout)
    requires k < |s| && c < |s|
    ensures |r| == |s|
    decreases fuel, 1
  {
    if s[c].moved then s
    else if s[k].y > s[c].y && 4 * (s[k].y - s[c].y) > s[c].h then s
    else if s[c].isStatic then MoveAway(s, c, k, isUserAction, fuel)
    else MoveAway(s, k, c, isUserAction, fuel)
  }

  /** The temporary item of moveElementAwayFromCollision: `itemToMove`'s
      rectangle lifted to just above `collision`, clamped at row 0. */
  function OptimisticProbe(s: Layout, collision: nat, itemToMove: nat): (p: Item)
    requires collision < |s| && itemToMove < |s|
    ensures p.y >= 0
  {
    Item(s[itemToMove].x, Max(s[collision].y - s[itemToMove].h, 0),
         s[itemToMove].w, s[itemToMove].h, false, false)
  }

  /** The optimistic slot is free: no item of the whole layout collides with
      the temporary item, `itemToMove` itself included, since the temporary
      item is a different object. */
  predicate OptimisticSlotFree(s: Layout, collision: nat, itemToMove: nat)
    requires collision < |s| && itemToMove < |s|
  {
    FirstCollision(s, Slots(|s|), OptimisticProbe(s, collision, itemToMove), ProbeId).None?
  }

  /** The optimistic slot is free exactly when no item of the layout collides
      with the temporary item. */
  lemma OptimisticSlotFreeIff(s: Layout, collision: nat, itemToMove: nat)
    requires collision < |s| && itemToMove < |s|
    ensures OptimisticSlotFree(s, collision, itemToMove) <==>
              forall j :: 0 <= j < |s| ==> !Collides(s[j], j, OptimisticProbe(s, collision, itemToMove), ProbeId)
  {
    var all := Slots(|s|);
    var p := OptimisticProbe(s, collision, itemToMove);
    FirstCollisionIsFirst(s, all, p, ProbeId);
    if OptimisticSlotFree(s, collision, itemToMove) {
      forall j | 0 <= j < |s| ensures !Collides(s[j], j, p, ProbeId) {
        assert all[j] == j;
      }
    } else {
      var t :| 0 <= t < |all| && Collides(s[all[t]], all[t], p, ProbeId);
      assert all[t] == t;
    }
  }

  /** The row moveElementAwayFromCollision sends `itemToMove` to: the
      optimistic slot above `collision` on a user action when it is free,
      otherwise one row further down. */
  function AwayTarget(s: Layout, collision: nat, itemToMove: nat, isUserAction: bool): (y: int)
    requires collision < |s| && itemToMove < |s|
    ensures s[itemToMove].y >= 0 ==> y >= 0
  {
    if isUserAction && OptimisticSlotFree(s, collision, itemToMove) then
      OptimisticProbe(s, collision, itemToMove).y
    else s[itemToMove].y + 1
  }

  /** moveElementAwayFromCollision (functional form). */
  function MoveAway(s: Layout, collision: nat, itemToMove: nat, isUserAction: bool, fuel: nat): (r: Layout)
    requires collision < |s| && itemToMove < |s|
    ensures |r| == |s|
    decreases fuel, 0
  {
    if fuel == 0 then s
    else Move(s, itemToMove, None, AwayTarget(s, collision, itemToMove, isUserAction), false, false, fuel - 1)
  }

  /** What a displacement inside a cascade may do to a layout: no `x`, `w`,
      `h` or static item changes, a `moved` marker is never cleared, every
      item that changes ends up marked `moved`, and no row turns negative. */
  ghost predicate Displaced(s: Layout, r: Layout) {
    |r| == |s| && forall j :: 0 <= j < |s| ==> DisplacedAt(s[j], r[j])
  }

  ghost predicate DisplacedAt(a: Item, b: Item) {
    b.x == a.x && b.w == a.w && b.h == a.h && b.isStatic == a.isStatic &&
    (a.isStatic ==> b == a) &&
    (a.moved ==> b.moved) &&
    (b != a ==> b.moved) &&
    (a.y >= 0 ==> b.y >= 0)
  }

  lemma DisplacedTransitive(a: Layout, b: Layout, c: Layout)
    requires Displaced(a, b) && Displaced(b, c)
    ensures Displaced(a, c)
  {
    forall j | 0 <= j < |a| ensures DisplacedAt(a[j], c[j]) {
      assert DisplacedAt(a[j], b[j]) && DisplacedAt(b[j], c[j]);
    }
  }

  /** A move without a new column and without rollback, to a row that is
      not negative when the old one was not, is a displacement. */
  lemma {:induction false} MoveDisplaces(s: Layout, k: nat, y: int, isUserAction: bool, fuel: nat)
    requires k < |s| && (s[k].y >= 0 ==> y >= 0)
    ensures Displaced(s, Move(s, k, None, y, isUserAction, false, fuel))
    decreases fuel, 3
  {
    if !s[k].isStatic {
      var placed := Placed(s, k, None, y);
      assert Displaced(s, placed);
      var collisions := TargetCollisions(s, k, None, y);
      ResolveDisplaces(placed, k, collisions, 0, isUserAction, fuel);
      DisplacedTransitive(s, placed, Resolve(placed, k, collisions, 0, isUserAction, fuel));
    }
  }

  lemma {:induction false} ResolveDisplaces(s: Layout, k: nat, collisions: View, i: nat, isUserAction: bool, fuel: nat)
    requires k < |s| && ValidView(s, collisions) && i <= |collisions|
    ensures Displaced(s, Resolve(s, k, collisions, i, isUserAction, fuel))
    decreases fuel, 2, |collisions| - i
  {
    if i < |collisions| {
      var s' := Visit(s, k, collisions[i], isUserAction, fuel);
      VisitDisplaces(s, k, collisions[i], isUserAction, fuel);
      ResolveDisplaces(s', k, collisions, i + 1, isUserAction, fuel);
      DisplacedTransitive(s, s', Resolve(s', k, collisions, i + 1, isUserAction, fuel));
    }
  }

  lemma {:induction false} VisitDisplaces(s: Layout, k: nat, c: nat, isUserAction: bool, fuel: nat)
    requires k < |s| && c < |s|
    ensures Displaced(s, Visit(s, k, c, isUserAction, fuel))
    decreases fuel, 1
  {
    if s[c].moved || (s[k].y > s[c].y && 4 * (s[k].y - s[c].y) > s[c].h) {
    } else if s[c].isStatic {
      AwayDisplaces(s, c, k, isUserAction, fuel);
    } else {
      AwayDisplaces(s, k, c, isUserAction, fuel);
    }
  }

  lemma {:induction false} AwayDisplaces(s: Layout, collision: nat, itemToMove: nat, isUserAction: bool, fuel: nat)
    requires collision < |s| && itemToMove < |s|
    ensures Displaced(s, MoveAway(s, collision, itemToMove, isUserAction, fuel))
    decreases fuel, 0
  {
    if fuel > 0 {
      MoveDisplaces(s, itemToMove, AwayTarget(s, collision, itemToMove, isUserAction), false, fuel - 1);
    }
  }

  /** The frame of a top-level move of slot `k`: a static item stays put;
      a move rolled back by preventCollision only clears the moving item's
      `moved` marker; any other move is a displacement of the layout in
      which the moving item already stands at its target, marked `moved`.
      So no `x`, `w`, `h` or static item changes except the moving item's
      column, which ends at the requested one, and every item that changes
      ends up marked. */
  lemma MoveFrame(s: Layout, k: nat, x: Option<int>, y: int, isUserAction: bool,
                  preventCollision: bool, fuel: nat)
    requires k < |s|
    ensures var r := Move(s, k, x, y, isUserAction, preventCollision, fuel);
      if s[k].isStatic then r == s
      else if preventCollision && |TargetCollisions(s, k, x, y)| > 0 then r == s[k := s[k].(moved := false)]
      else Displaced(Placed(s, k, x, y), r)
  {
    if !s[k].isStatic {
      var placed := Placed(s, k, x, y);
      var collisions := TargetCollisions(s, k, x, y);
      if !(preventCollision && |collisions| > 0) {
        ResolveDisplaces(placed, k, collisions, 0, isUserAction, fuel);
      }
    }
  }

  /** The target is blocked: once the moving item stands at its target, some
      other item collides with it. */
  ghost predicate TargetBlocked(s: Layout, k: nat, x: Option<int>, y: int)
    requires k < |s|
  {
    exists j :: 0 <= j < |s| && Collides(Placed(s, k, x, y)[j], j, Placed(s, k, x, y)[k], k)
  }

  /** The collision list is non-empty exactly when the target is blocked:
      the visit order lists every slot. */
  lemma TargetCollisionsIffBlocked(s: Layout, k: nat, x: Option<int>, y: int)
    requires k < |s|
    ensures |TargetCollisions(s, k, x, y)| > 0 <==> TargetBlocked(s, k, x, y)
  {
    var placed := Placed(s, k, x, y);
    var order := VisitOrder(placed, s[k].y, y);
    var collisions := TargetCollisions(s, k, x, y);
    VisitOrderListsEverySlot(placed, s[k].y, y);
    if TargetBlocked(s, k, x, y) {
      var j :| 0 <= j < |s| && Collides(placed[j], j, placed[k], k);
      assert j in order;
      var t :| 0 <= t < |order| && order[t] == j;
      assert j in collisions;
    }
    if |collisions| > 0 {
      assert collisions[0] in order;
    }
  }

  /** With preventCollision, a blocked target rolls the move back: the item
      returns to its old place with `moved` cleared, and nothing else
      changes. */
  lemma PreventCollisionRollsBack(s: Layout, k: nat, x: Option<int>, y: int, isUserAction: bool, fuel: nat)
    requires k < |s| && !s[k].isStatic && TargetBlocked(s, k, x, y)
    ensures Move(s, k, x, y, isUserAction, true, fuel) == s[k := s[k].(moved := false)]
  {
    TargetCollisionsIffBlocked(s, k, x, y);
  }

  /** With preventCollision, a free target is taken and nothing else moves. */
  lemma PreventCollisionFreeTarget(s: Layout, k: nat, x: Option<int>, y: int, isUserAction: bool, fuel: nat)
    requires k < |s| && !s[k].isStatic && !TargetBlocked(s, k, x, y)
    ensures Move(s, k, x, y, isUserAction, true, fuel) ==
            s[k := s[k].(x := if x.Some? then x.value else s[k].x, y := y, moved := true)]
  {
    TargetCollisionsIffBlocked(s, k, x, y);
  }

  /** moveElementAwayFromCollision as the source writes it. It returns the
      layout array it was given. */
  method MoveElementAwayFromCollision(layout: array<Item>, collision: nat, itemToMove: nat,
                                      isUserAction: bool, fuel: nat) returns (r: array<Item>)
    requires collision < layout.Length && itemToMove < layout.Length
    modifies layout
    ensures r == layout
    ensures layout[..] == MoveAway(old(layout[..]), collision, itemToMove, isUserAction, fuel)
    decreases fuel, 0
  {
    r := layout;
    if fuel == 0 {
      return;
    }
    ghost var s := layout[..];
    var y := layout[itemToMove].y + 1;
    if isUserAction {
      var fakeItem := Item(layout[itemToMove].x, Max(layout[collision].y - layout[itemToMove].h, 0),
                           layout[itemToMove].w, layout[itemToMove].h, false, false);
      assert fakeItem == OptimisticProbe(s, collision, itemToMove);
      var hit := GetFirstCollision(layout, Slots(layout.Length), fakeItem, ProbeId);
      if hit.None? {
        y := fakeItem.y;
      }
    }
    assert y == AwayTarget(s, collision, itemToMove, isUserAction);
    r := MoveElement(layout, itemToMove, None, y, false, false, fuel - 1);
  }

  /** moveElement as the source writes it: it updates the items of `layout`
      in place and returns that same array. */
  method MoveElement(layout: array<Item>, k: nat, x: Option<int>, y: int, isUserAction: bool,
                     preventCollision: bool, fuel: nat) returns (r: array<Item>)
    requires k < layout.Length
    modifies layout
    ensures r == layout
    ensures layout[..] == Move(old(layout[..]), k, x, y, isUserAction, preventCollision, fuel)
    decreases fuel, 3
  {
    r := layout;
    if layout[k].isStatic {
      return;
    }
    ghost var s := layout[..];
    var oldX, oldY := layout[k].x, layout[k].y;
    var movingUp := MovingUp(oldY, y);
    var newX := if x.Some? then x.value else layout[k].x;
    layout[k] := layout[k].(x := newX, y := y, moved := true);
    assert layout[..] == Placed(s, k, x, y);
    var sortedLayout := SortByRowCol(layout[..]);
    if movingUp {
      sortedLayout := Reverse(sortedLayout);
    }
    var collisions := AllCollisions(layout[..], sortedLayout, k);
    assert collisions == TargetCollisions(s, k, x, y);
    if preventCollision && |collisions| > 0 {
      layout[k] := layout[k].(x := oldX, y := oldY, moved := false);
      return;
    }
    ResolveCollisions(layout, k, collisions, isUserAction, fuel);
  }

  /** The loop of moveElement over its collision list: each entry is
      visited in the layout as the earlier visits left it. */
  method ResolveCollisions(layout: array<Item>, k: nat, collisions: View, isUserAction: bool, fuel: nat)
    requires k < layout.Length && ValidView(layout[..], collisions)
    modifies layout
    ensures layout[..] == Resolve(old(layout[..]), k, collisions, 0, isUserAction, fuel)
    decreases fuel, 2
  {
    ghost var placed := layout[..];
    var i := 0;
    while i < |collisions|
      invariant 0 <= i <= |collisions|
      invariant layout.Length == |placed|
      invariant ValidView(layout[..], collisions)
      invariant Resolve(layout[..], k, collisions, i, isUserAction, fuel) ==
                Resolve(placed, k, collisions, 0, isUserAction, fuel)
    {
      ghost var before := layout[..];
      VisitCollision(layout, k, collisions[i], isUserAction, fuel);
      ValidViewSameLength(before, layout[..], collisions);
      ResolveStep(before, layout[..], placed, k, collisions, i, isUserAction, fuel);
      i := i + 1;
    }
  }

  method VisitCollision(layout: array<Item>, k: nat, c: nat, isUserAction: bool, fuel: nat)
    requires k < layout.Length && c < layout.Length
    modifies layout
    ensures layout[..] == Visit(old(layout[..]), k, c, isUserAction, fuel)
    decreases fuel, 1
  {
    var r;
    if layout[c].moved {
    } else if layout[k].y > layout[c].y && 4 * (layout[k].y - layout[c].y) > layout[c].h {
    } else if layout[c].isStatic {
      r := MoveElementAwayFromCollision(layout, c, k, isUserAction, fuel);
    } else {
      r := MoveElementAwayFromCollision(layout, k, c, isUserAction, fuel);
    }
  }
}
