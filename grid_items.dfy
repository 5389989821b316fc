/** Grid items, layouts, and the lists of references into a layout that the
    engine builds (a sorted copy, a list of collisions, a list of obstacles). */
module GridItems {

  datatype Option<T> = None | Some(value: T)

  /** One grid item: column `x`, row `y`, width `w` and height `h` in grid
      cells, whether it is pinned in place (`isStatic`), and the transient
      `moved` marker that a move cascade sets. An item is identified by its
      slot in the layout, which stands for the object identity the engine
      compares with `===`. */
  datatype Item = Item(x: int, y: int, w: int, h: int, isStatic: bool, moved: bool)

  /** A layout: the caller's array of items, slot by slot. */
  type Layout = seq<Item>

  /** A list of references into a layout, given as slots. A copy of the
      layout array (sorted or filtered) shares its items, so it is a view. */
  type View = seq<nat>

  /** The identity given to a temporary item that is in no layout. */
  const ProbeId: int := -1

  predicate ValidView(s: Layout, v: View) {
    forall t :: 0 <= t < |v| ==> v[t] < |s|
  }

  /** A view stays valid for any layout of the same length. */
  lemma ValidViewSameLength(s: Layout, s': Layout, v: View)
    requires ValidView(s, v) && |s'| == |s|
    ensures ValidView(s', v)
  {
  }

  /** The slots `0 .. n-1` in array order: the layout array itself as a view. */
  function Slots(n: nat): (r: View)
    ensures |r| == n
    ensures forall t :: 0 <= t < n ==> r[t] == t
  {
    seq(n, i => i)
  }

  function Reverse(v: View): (r: View)
    ensures |r| == |v|
    ensures forall t :: 0 <= t < |v| ==> r[t] == v[|v| - 1 - t]
  {
    seq(|v|, t requires 0 <= t < |v| => v[|v| - 1 - t])
  }

  /** Reversing twice gives the view back, and a reversed view holds the
      same entries, as often as before. */
  lemma {:induction false} ReverseReverses(v: View)
    ensures Reverse(Reverse(v)) == v
    ensures multiset(Reverse(v)) == multiset(v)
  {
    if v != [] {
      var n := |v| - 1;
      var front := v[..n];
      ReverseReverses(front);
      assert Reverse(v) == [v[n]] + Reverse(front);
      assert v == front + [v[n]];
    }
  }

  function Max(a: int, b: int): int {
    if a < b then b else a
  }

  /** Two items occupy the same rectangle. */
  predicate SameRect(a: Item, b: Item) {
    a.x == b.x && a.y == b.y && a.w == b.w && a.h == b.h
  }
}
