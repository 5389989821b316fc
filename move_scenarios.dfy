/** Two small layouts worked through moveElement, step by step. */
module MoveScenarios {
  import opened GridItems
  import opened Collision
  import opened Ordering
  import opened MoveResolver

  /** The sorted copy of a two-item layout. */
  lemma SortTwo(s: Layout)
    requires |s| == 2
    ensures SortByRowCol(s) == if RowColBefore(s, 1, 0) then [1, 0] else [0, 1]
  {
    assert SortPrefix(s, 1) == Insert(s, 0, []) == [0];
    assert SortByRowCol(s) == Insert(s, 1, [0]);
    if !RowColBefore(s, 1, 0) {
      assert Insert(s, 1, [0]) == [0] + Insert(s, 1, []);
    }
  }

  /** The collisions of slot `k` among the two slots of a view. */
  lemma CollisionsOfTwo(s: Layout, a: nat, b: nat, k: nat)
    requires a < |s| && b < |s| && k < |s|
    ensures AllCollisions(s, [a, b], k) ==
              (if Collides(s[a], a, s[k], k) then [a] else []) +
              (if Collides(s[b], b, s[k], k) then [b] else [])
  {
    var empty: View := [];
    var ca: View := if Collides(s[a], a, s[k], k) then [a] else [];
    assert empty + [a] == [a];
    assert empty + ca == ca;
    CollisionsSnoc(s, empty, a, k);
    assert AllCollisions(s, [a], k) == ca;
    assert [a] + [b] == [a, b];
    CollisionsSnoc(s, [a], b, k);
  }

  /** One more entry at the end of the view adds at most that entry. */
  lemma CollisionsSnoc(s: Layout, v: View, c: nat, k: nat)
    requires k < |s| && c < |s| && ValidView(s, v)
    ensures AllCollisions(s, v + [c], k) ==
              AllCollisions(s, v, k) + (if Collides(s[c], c, s[k], k) then [c] else [])
  {
    assert (v + [c])[..|v|] == v;
  }

  /** Once the upper item stands on the lower one, the lower one is the only
      collision. */
  lemma DragDownCollides()
    ensures var s := [Item(0, 0, 1, 1, false, false), Item(0, 1, 1, 1, false, false)];
            TargetCollisions(s, 0, None, 1) == [1]
  {
    var s := [Item(0, 0, 1, 1, false, false), Item(0, 1, 1, 1, false, false)];
    var placed := [Item(0, 1, 1, 1, false, true), Item(0, 1, 1, 1, false, false)];
    assert Placed(s, 0, None, 1) == placed;
    SortTwo(placed);
    assert VisitOrder(placed, 0, 1) == [0, 1];
    CollisionsOfTwo(placed, 0, 1, 0);
    assert AllCollisions(placed, [0, 1], 0) == [1];
  }

  /** The optimistic slot for the lower item is row 0, and it is free. */
  lemma DragDownAwayTarget()
    ensures var placed := [Item(0, 1, 1, 1, false, true), Item(0, 1, 1, 1, false, false)];
            AwayTarget(placed, 0, 1, true) == 0
  {
    var placed := [Item(0, 1, 1, 1, false, true), Item(0, 1, 1, 1, false, false)];
    var probe := OptimisticProbe(placed, 0, 1);
    assert probe == Item(0, 0, 1, 1, false, false);
    assert Slots(2) == [0, 1];
    assert FirstCollision(placed, [1], probe, ProbeId) == None;
    assert FirstCollision(placed, [0, 1], probe, ProbeId) == None;
  }

  /** At row 0 the lower item collides with nothing. */
  lemma DragDownLowerSettles(fuel: nat)
    ensures var placed := [Item(0, 1, 1, 1, false, true), Item(0, 1, 1, 1, false, false)];
            Move(placed, 1, None, 0, false, false, fuel) ==
              [Item(0, 1, 1, 1, false, true), Item(0, 0, 1, 1, false, true)]
  {
    var placed := [Item(0, 1, 1, 1, false, true), Item(0, 1, 1, 1, false, false)];
    var swapped := Placed(placed, 1, None, 0);
    assert swapped == [Item(0, 1, 1, 1, false, true), Item(0, 0, 1, 1, false, true)];
    SortTwo(swapped);
    assert VisitOrder(swapped, 1, 0) == [1, 0];
    CollisionsOfTwo(swapped, 1, 0, 1);
    assert TargetCollisions(placed, 1, None, 0) == [];
  }

  /** The drag places the upper item and visits its one collision. */
  lemma DragDownResolves(fuel: nat)
    ensures var s := [Item(0, 0, 1, 1, false, false), Item(0, 1, 1, 1, false, false)];
            var placed := [Item(0, 1, 1, 1, false, true), Item(0, 1, 1, 1, false, false)];
            Move(s, 0, None, 1, true, false, fuel) == Visit(placed, 0, 1, true, fuel)
  {
    var s := [Item(0, 0, 1, 1, false, false), Item(0, 1, 1, 1, false, false)];
    var placed := [Item(0, 1, 1, 1, false, true), Item(0, 1, 1, 1, false, false)];
    assert Placed(s, 0, None, 1) == placed;
    DragDownCollides();
    assert Move(s, 0, None, 1, true, false, fuel) == Resolve(placed, 0, [1], 0, true, fuel);
    assert Resolve(placed, 0, [1], 0, true, fuel) ==
           Resolve(Visit(placed, 0, 1, true, fuel), 0, [1], 1, true, fuel);
  }

  /** The lower item is neither moved nor entered from below, so it is pushed
      away to its optimistic slot. */
  lemma DragDownPushesLower(fuel: nat)
    requires fuel >= 1
    ensures var placed := [Item(0, 1, 1, 1, false, true), Item(0, 1, 1, 1, false, false)];
            Visit(placed, 0, 1, true, fuel) == Move(placed, 1, None, 0, false, false, fuel - 1)
  {
    var placed := [Item(0, 1, 1, 1, false, true), Item(0, 1, 1, 1, false, false)];
    DragDownAwayTarget();
    assert Visit(placed, 0, 1, true, fuel) == MoveAway(placed, 0, 1, true, fuel);
  }

  /** Dragging the upper of two stacked unit items down one row: the lower
      one collides, takes the free optimistic slot at row 0, and then
      collides with nothing; the two have swapped rows. */
  lemma DragDownSwaps(fuel: nat)
    requires fuel >= 1
    ensures var s := [Item(0, 0, 1, 1, false, false), Item(0, 1, 1, 1, false, false)];
            Move(s, 0, None, 1, true, false, fuel) ==
              [Item(0, 1, 1, 1, false, true), Item(0, 0, 1, 1, false, true)]
  {
    DragDownResolves(fuel);
    DragDownPushesLower(fuel);
    DragDownLowerSettles(fuel - 1);
  }

  /** Once the moving item stands on the static one, the static one is the
      only collision. */
  lemma OntoStaticCollides()
    ensures var s := [Item(0, 0, 2, 2, true, false), Item(2, 0, 2, 2, false, false)];
            TargetCollisions(s, 1, Some(0), 0) == [0]
  {
    var s := [Item(0, 0, 2, 2, true, false), Item(2, 0, 2, 2, false, false)];
    var placed := [Item(0, 0, 2, 2, true, false), Item(0, 0, 2, 2, false, true)];
    assert Placed(s, 1, Some(0), 0) == placed;
    SortTwo(placed);
    assert VisitOrder(placed, 0, 0) == [0, 1];
    CollisionsOfTwo(placed, 0, 1, 1);
    assert AllCollisions(placed, [0, 1], 1) == [0];
  }

  /** The optimistic slot above the static item is row 0 again, which the
      static item occupies: the moving item goes one row down. */
  lemma OntoStaticAwayTarget()
    ensures var placed := [Item(0, 0, 2, 2, true, false), Item(0, 0, 2, 2, false, true)];
            AwayTarget(placed, 0, 1, true) == 1
  {
    var placed := [Item(0, 0, 2, 2, true, false), Item(0, 0, 2, 2, false, true)];
    var probe := OptimisticProbe(placed, 0, 1);
    assert probe == Item(0, 0, 2, 2, false, false);
    assert Slots(2) == [0, 1];
    assert FirstCollision(placed, [0, 1], probe, ProbeId) == Some(0);
  }

  /** One row down, the moving item still overlaps the static item. */
  lemma OntoStaticPushedCollides()
    ensures var placed := [Item(0, 0, 2, 2, true, false), Item(0, 0, 2, 2, false, true)];
            TargetCollisions(placed, 1, None, 1) == [0]
  {
    var placed := [Item(0, 0, 2, 2, true, false), Item(0, 0, 2, 2, false, true)];
    var pushed := [Item(0, 0, 2, 2, true, false), Item(0, 1, 2, 2, false, true)];
    assert Placed(placed, 1, None, 1) == pushed;
    SortTwo(pushed);
    assert VisitOrder(pushed, 0, 1) == [0, 1];
    CollisionsOfTwo(pushed, 0, 1, 1);
    assert AllCollisions(pushed, [0, 1], 1) == [0];
  }

  /** But it has entered the static item by more than a quarter of the
      static item's height, so that collision is skipped. */
  lemma OntoStaticSkips(fuel: nat)
    ensures var pushed := [Item(0, 0, 2, 2, true, false), Item(0, 1, 2, 2, false, true)];
            Resolve(pushed, 1, [0], 0, false, fuel) == pushed
  {
    var pushed := [Item(0, 0, 2, 2, true, false), Item(0, 1, 2, 2, false, true)];
    assert Visit(pushed, 1, 0, false, fuel) == pushed;
    assert Resolve(pushed, 1, [0], 0, false, fuel) == Resolve(pushed, 1, [0], 1, false, fuel);
  }

  /** The drag places the moving item and visits its one collision. */
  lemma OntoStaticResolves(fuel: nat)
    ensures var s := [Item(0, 0, 2, 2, true, false), Item(2, 0, 2, 2, false, false)];
            var placed := [Item(0, 0, 2, 2, true, false), Item(0, 0, 2, 2, false, true)];
            Move(s, 1, Some(0), 0, true, false, fuel) == Visit(placed, 1, 0, true, fuel)
  {
    var s := [Item(0, 0, 2, 2, true, false), Item(2, 0, 2, 2, false, false)];
    var placed := [Item(0, 0, 2, 2, true, false), Item(0, 0, 2, 2, false, true)];
    assert Placed(s, 1, Some(0), 0) == placed;
    OntoStaticCollides();
    assert Move(s, 1, Some(0), 0, true, false, fuel) == Resolve(placed, 1, [0], 0, true, fuel);
    assert Resolve(placed, 1, [0], 0, true, fuel) ==
           Resolve(Visit(placed, 1, 0, true, fuel), 1, [0], 1, true, fuel);
  }

  /** The collision is static, so the moving item itself is pushed away. */
  lemma OntoStaticPushesMover(fuel: nat)
    requires fuel >= 1
    ensures var placed := [Item(0, 0, 2, 2, true, false), Item(0, 0, 2, 2, false, true)];
            Visit(placed, 1, 0, true, fuel) == Move(placed, 1, None, 1, false, false, fuel - 1)
  {
    var placed := [Item(0, 0, 2, 2, true, false), Item(0, 0, 2, 2, false, true)];
    OntoStaticAwayTarget();
    assert Visit(placed, 1, 0, true, fuel) == MoveAway(placed, 0, 1, true, fuel);
  }

  /** Pushed one row down, the moving item skips the static item. */
  lemma OntoStaticSettles(fuel: nat)
    ensures var placed := [Item(0, 0, 2, 2, true, false), Item(0, 0, 2, 2, false, true)];
            Move(placed, 1, None, 1, false, false, fuel) ==
              [Item(0, 0, 2, 2, true, false), Item(0, 1, 2, 2, false, true)]
  {
    var placed := [Item(0, 0, 2, 2, true, false), Item(0, 0, 2, 2, false, true)];
    var pushed := [Item(0, 0, 2, 2, true, false), Item(0, 1, 2, 2, false, true)];
    assert Placed(placed, 1, None, 1) == pushed;
    OntoStaticPushedCollides();
    OntoStaticSkips(fuel);
    assert Move(placed, 1, None, 1, false, false, fuel) == Resolve(pushed, 1, [0], 0, false, fuel);
  }

  /** The three stages together: the drag ends with the moving item one
      row below the static item's top. */
  lemma OntoStaticEnds(fuel: nat)
    requires fuel >= 1
    ensures var s := [Item(0, 0, 2, 2, true, false), Item(2, 0, 2, 2, false, false)];
            Move(s, 1, Some(0), 0, true, false, fuel) ==
              [Item(0, 0, 2, 2, true, false), Item(0, 1, 2, 2, false, true)]
  {
    OntoStaticResolves(fuel);
    OntoStaticVisit(fuel);
  }

  /** The visit of the static item ends the drag. */
  lemma OntoStaticVisit(fuel: nat)
    requires fuel >= 1
    ensures var placed := [Item(0, 0, 2, 2, true, false), Item(0, 0, 2, 2, false, true)];
            Visit(placed, 1, 0, true, fuel) ==
              [Item(0, 0, 2, 2, true, false), Item(0, 1, 2, 2, false, true)]
  {
    OntoStaticPushesMover(fuel);
    OntoStaticSettles(fuel - 1);
  }

  /** Dragging an item onto a static one: the moving item is pushed away
      from the static item one row down, and there the quarter-height
      tolerance makes it skip the static item, which it still overlaps. */
  lemma DragOntoStaticStaysOverlapping(fuel: nat)
    requires fuel >= 1
    ensures var s := [Item(0, 0, 2, 2, true, false), Item(2, 0, 2, 2, false, false)];
            var r := Move(s, 1, Some(0), 0, true, false, fuel);
            r == [Item(0, 0, 2, 2, true, false), Item(0, 1, 2, 2, false, true)] &&
            Collides(r[0], 0, r[1], 1)
  {
    OntoStaticEnds(fuel);
  }
}
