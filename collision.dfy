/** The collision test and the queries built on it. */
module Collision {
  import opened GridItems

  /** Whether item `a` (identity `aId`) collides with item `b` (identity
      `bId`): identity first, then the four half-open edge tests. */
  function Collides(a: Item, aId: int, b: Item, bId: int): (r: bool)
    ensures aId == bId ==> !r
  {
    if aId == bId then false
    else if a.x + a.w <= b.x then false
    else if a.x >= b.x + b.w then false
    else if a.y + a.h <= b.y then false
    else if a.y >= b.y + b.h then false
    else true
  }

  /** Cell `(cx, cy)` lies in `[x, x+w) x [y, y+h)`. */
  predicate Covers(a: Item, cx: int, cy: int) {
    a.x <= cx < a.x + a.w && a.y <= cy < a.y + a.h
  }

  lemma CollidesSymmetric(a: Item, aId: int, b: Item, bId: int)
    ensures Collides(a, aId, b, bId) == Collides(b, bId, a, aId)
  {
  }

  /** For items of positive size, two distinct items collide exactly when
      some grid cell lies in both rectangles. */
  lemma CollidesIffSharedCell(a: Item, aId: int, b: Item, bId: int)
    requires a.w > 0 && a.h > 0 && b.w > 0 && b.h > 0
    ensures Collides(a, aId, b, bId) <==>
              aId != bId && exists cx, cy :: Covers(a, cx, cy) && Covers(b, cx, cy)
  {
    if Collides(a, aId, b, bId) {
      var cx := Max(a.x, b.x);
      var cy := Max(a.y, b.y);
      assert Covers(a, cx, cy) && Covers(b, cx, cy);
    }
    if aId != bId && exists cx, cy :: Covers(a, cx, cy) && Covers(b, cx, cy) {
      var cx, cy :| Covers(a, cx, cy) && Covers(b, cx, cy);
      assert Collides(a, aId, b, bId);
    }
  }

  /** Collisions depend on the rectangles only, not on `isStatic` or `moved`. */
  lemma CollidesSameRects(a: Item, a': Item, aId: int, b: Item, b': Item, bId: int)
    requires SameRect(a, a') && SameRect(b, b')
    ensures Collides(a, aId, b, bId) == Collides(a', aId, b', bId)
  {
  }

  /** getStatics: the slots of the static items, in array order. */
  function Statics(s: Layout): (r: View)
    ensures |r| <= |s|
    ensures ValidView(s, r)
  {
    if |s| == 0 then []
    else
      var n := |s| - 1;
      Statics(s[..n]) + (if s[n].isStatic then [n] else [])
  }

  /** The filter keeps exactly the static items, each once, in array order. */
  lemma {:induction false} StaticsSelects(s: Layout)
    ensures forall t :: 0 <= t < |Statics(s)| ==> s[Statics(s)[t]].isStatic
    ensures forall j :: 0 <= j < |s| && s[j].isStatic ==> j in Statics(s)
    ensures forall p, q :: 0 <= p < q < |Statics(s)| ==> Statics(s)[p] < Statics(s)[q]
  {
    if |s| > 0 {
      var n := |s| - 1;
      var prefix := s[..n];
      StaticsSelects(prefix);
      var r0 := Statics(prefix);
      var r := Statics(s);
      assert r == r0 + (if s[n].isStatic then [n] else []);
      forall t | 0 <= t < |r| ensures s[r[t]].isStatic && (t < |r0| ==> r[t] < n) {
        if t < |r0| {
          assert r[t] == r0[t] && prefix[r0[t]] == s[r0[t]];
        }
      }
      forall j | 0 <= j < |s| && s[j].isStatic ensures j in r {
        if j < n {
          assert prefix[j] == s[j];
          var t :| 0 <= t < |r0| && r0[t] == j;
          assert r[t] == j;
        } else {
          assert r[|r0|] == n;
        }
      }
    }
  }

  /** getAllCollisions: the entries of view `v` that collide with the item
      in slot `k`, in view order. */
  function AllCollisions(s: Layout, v: View, k: nat): (r: View)
    requires k < |s| && ValidView(s, v)
    ensures ValidView(s, r)
    ensures |r| <= |v|
    ensures k !in r
    ensures forall t :: 0 <= t < |r| ==> r[t] in v && Collides(s[r[t]], r[t], s[k], k)
    ensures forall t :: 0 <= t < |v| && Collides(s[v[t]], v[t], s[k], k) ==> v[t] in r
  {
    if v == [] then []
    else
      var n := |v| - 1;
      var last := v[n];
      AllCollisions(s, v[..n], k) + (if Collides(s[last], last, s[k], k) then [last] else [])
  }

  /** The filter keeps the view's order: any order the view's entries follow,
      the collisions follow too. */
  lemma {:induction false} AllCollisionsKeepsOrder(s: Layout, v: View, k: nat, before: (nat, nat) -> bool)
    requires k < |s| && ValidView(s, v)
    requires forall p, q :: 0 <= p < q < |v| ==> before(v[p], v[q])
    ensures forall p, q :: 0 <= p < q < |AllCollisions(s, v, k)| ==>
              before(AllCollisions(s, v, k)[p], AllCollisions(s, v, k)[q])
  {
    if v != [] {
      var n := |v| - 1;
      var w := v[..n];
      assert forall p, q :: 0 <= p < q < |w| ==> before(w[p], w[q]) by {
        forall p, q | 0 <= p < q < |w| ensures before(w[p], w[q]) {
          assert w[p] == v[p] && w[q] == v[q];
        }
      }
      AllCollisionsKeepsOrder(s, w, k, before);
      var r0 := AllCollisions(s, w, k);
      if Collides(s[v[n]], v[n], s[k], k) {
        assert forall t :: 0 <= t < |w| ==> before(w[t], v[n]) by {
          forall t | 0 <= t < |w| ensures before(w[t], v[n]) {
            assert w[t] == v[t];
          }
        }
        OrderedSnoc(r0, w, v[n], before);
        assert AllCollisions(s, v, k) == r0 + [v[n]];
      } else {
        assert AllCollisions(s, v, k) == r0;
      }
    }
  }

  lemma OrderedSnoc(r0: View, w: View, x: nat, before: (nat, nat) -> bool)
    requires forall p, q :: 0 <= p < q < |r0| ==> before(r0[p], r0[q])
    requires forall t :: 0 <= t < |r0| ==> r0[t] in w
    requires forall t :: 0 <= t < |w| ==> before(w[t], x)
    ensures forall p, q :: 0 <= p < q < |r0| + 1 ==> before((r0 + [x])[p], (r0 + [x])[q])
  {
    forall p, q | 0 <= p < q < |r0| + 1
      ensures before((r0 + [x])[p], (r0 + [x])[q])
    {
      if q == |r0| {
        assert r0[p] in w;
      } else {
        assert (r0 + [x])[p] == r0[p] && (r0 + [x])[q] == r0[q];
      }
    }
  }

  /** getFirstCollision: the position in view `v` of the first entry that
      collides with `probe` (identity `probeId`), or None. */
  function FirstCollision(s: Layout, v: View, probe: Item, probeId: int): (r: Option<nat>)
    requires ValidView(s, v)
    ensures r.Some? ==> r.value < |v| && Collides(s[v[r.value]], v[r.value], probe, probeId)
    decreases |v|
  {
    if v == [] then None
    else if Collides(s[v[0]], v[0], probe, probeId) then Some(0)
    else
      match FirstCollision(s, v[1..], probe, probeId)
      case None => None
      case Some(p) => Some(p + 1)
  }

  /** There is no collision exactly when the scan finds none, and the one it
      finds is preceded by no other. */
  lemma {:induction false} FirstCollisionIsFirst(s: Layout, v: View, probe: Item, probeId: int)
    requires ValidView(s, v)
    ensures FirstCollision(s, v, probe, probeId).None? <==>
              forall t :: 0 <= t < |v| ==> !Collides(s[v[t]], v[t], probe, probeId)
    ensures FirstCollision(s, v, probe, probeId).Some? ==>
              forall t :: 0 <= t < FirstCollision(s, v, probe, probeId).value ==>
                !Collides(s[v[t]], v[t], probe, probeId)
    decreases |v|
  {
    if v != [] && !Collides(s[v[0]], v[0], probe, probeId) {
      var w := v[1..];
      FirstCollisionIsFirst(s, w, probe, probeId);
      forall t | 1 <= t < |v| ensures v[t] == w[t - 1] {
      }
    }
  }

  /** The slot of that first colliding entry: the item getFirstCollision
      returns. */
  function FirstCollider(s: Layout, v: View, probe: Item, probeId: int): (r: Option<nat>)
    requires ValidView(s, v)
    ensures r.Some? ==> r.value < |s| && Collides(s[r.value], r.value, probe, probeId)
    ensures r.None? <==> FirstCollision(s, v, probe, probeId).None?
  {
    match FirstCollision(s, v, probe, probeId)
    case None => None
    case Some(p) => Some(v[p])
  }

  /** Only the rectangles of the entries other than the probe itself matter. */
  lemma {:induction false} FirstCollisionSameRects(s: Layout, s': Layout, v: View, probe: Item, probeId: int)
    requires ValidView(s, v) && ValidView(s', v)
    requires forall t :: 0 <= t < |v| && v[t] != probeId ==> SameRect(s[v[t]], s'[v[t]])
    ensures FirstCollision(s, v, probe, probeId) == FirstCollision(s', v, probe, probeId)
    decreases |v|
  {
    if v != [] {
      FirstCollisionSameRects(s, s', v[1..], probe, probeId);
      if v[0] != probeId {
        CollidesSameRects(s[v[0]], s'[v[0]], v[0], probe, probe, probeId);
      }
    }
  }

  /** getFirstCollision as the source writes it: an index loop that returns
      the first colliding entry of the view (as its slot). */
  method GetFirstCollision(layout: array<Item>, view: View, probe: Item, probeId: int) returns (r: Option<nat>)
    requires ValidView(layout[..], view)
    ensures r == FirstCollider(layout[..], view, probe, probeId)
  {
    FirstCollisionIsFirst(layout[..], view, probe, probeId);
    var i := 0;
    while i < |view|
      invariant 0 <= i <= |view|
      invariant forall t :: 0 <= t < i ==> !Collides(layout[view[t]], view[t], probe, probeId)
    {
      if Collides(layout[view[i]], view[i], probe, probeId) {
        return Some(view[i]);
      }
      i := i + 1;
    }
    return None;
  }
}
