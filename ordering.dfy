/** Row-major ordering of a layout: sortLayoutItemsByRowCol. */
module Ordering {
  import opened GridItems

  /** The comparator handed to the array sort: 0 when both coordinates are
      equal, 1 when `a` lies on a lower row or further right on the same
      row, -1 otherwise. */
  function Compare(a: Item, b: Item): int {
    if a.x == b.x && a.y == b.y then 0
    else if a.y > b.y || (a.y == b.y && a.x > b.x) then 1
    else -1
  }

  /** The comparator is antisymmetric, returns 0 exactly for equal
      coordinates, and is negative exactly when `a` is on an earlier row, or
      on the same row further left. */
  lemma CompareMeaning(a: Item, b: Item)
    ensures Compare(a, b) == -Compare(b, a)
    ensures Compare(a, b) == 0 <==> a.x == b.x && a.y == b.y
    ensures Compare(a, b) < 0 <==> a.y < b.y || (a.y == b.y && a.x < b.x)
  {
  }

  /** Slot `i` comes before slot `j` in the sorted copy. The array sort is
      stable, so entries the comparator calls equal keep their array order. */
  predicate RowColBefore(s: Layout, i: nat, j: nat)
    requires i < |s| && j < |s|
  {
    Compare(s[i], s[j]) < 0 || (Compare(s[i], s[j]) == 0 && i < j)
  }

  predicate SortedByRowCol(s: Layout, v: View)
    requires ValidView(s, v)
  {
    forall p, q {:trigger RowColBefore(s, v[p], v[q])} :: 0 <= p < q < |v| ==> RowColBefore(s, v[p], v[q])
  }

  lemma RowColBeforeTransitive(s: Layout, a: nat, b: nat, c: nat)
    requires a < |s| && b < |s| && c < |s|
    requires RowColBefore(s, a, b) && RowColBefore(s, b, c)
    ensures RowColBefore(s, a, c)
  {
  }

  lemma RowColBeforeTotal(s: Layout, a: nat, b: nat)
    requires a < |s| && b < |s| && a != b
    ensures RowColBefore(s, a, b) || RowColBefore(s, b, a)
  {
  }

  /** Inserting slot `j` into a view: it goes in front of the first entry it
      comes before, or at the end. */
  function Insert(s: Layout, j: nat, v: View): (r: View)
    requires j < |s| && ValidView(s, v)
    ensures |r| == |v| + 1
    ensures ValidView(s, r)
    decreases |v|
  {
    if v == [] then [j]
    else if RowColBefore(s, j, v[0]) then [j] + v
    else [v[0]] + Insert(s, j, v[1..])
  }

  lemma {:induction false} InsertPermutes(s: Layout, j: nat, v: View)
    requires j < |s| && ValidView(s, v)
    ensures multiset(Insert(s, j, v)) == multiset(v) + multiset{j}
    decreases |v|
  {
    if v != [] && !RowColBefore(s, j, v[0]) {
      InsertPermutes(s, j, v[1..]);
      assert v == [v[0]] + v[1..];
    }
  }

  /** Inserting a slot that is later in the array than every entry of a
      sorted view keeps it sorted. */
  lemma {:induction false} InsertSorted(s: Layout, j: nat, v: View)
    requires j < |s| && ValidView(s, v) && SortedByRowCol(s, v)
    requires forall t :: 0 <= t < |v| ==> v[t] < j
    ensures SortedByRowCol(s, Insert(s, j, v))
    decreases |v|
  {
    if v == [] {
    } else if RowColBefore(s, j, v[0]) {
      PrependSorted(s, j, v);
    } else {
      var tail := v[1..];
      assert SortedByRowCol(s, tail) by {
        forall p, q | 0 <= p < q < |tail| ensures RowColBefore(s, tail[p], tail[q]) {
          assert tail[p] == v[p + 1] && tail[q] == v[q + 1];
        }
      }
      InsertSorted(s, j, tail);
      RowColBeforeTotal(s, j, v[0]);
      var rest := Insert(s, j, tail);
      if rest[0] != j {
        InsertPermutes(s, j, tail);
        assert rest[0] in multiset(rest);
        assert rest[0] in multiset(tail);
        var u :| 0 <= u < |tail| && tail[u] == rest[0];
        assert v[u + 1] == rest[0];
      }
      PrependSorted(s, v[0], rest);
    }
  }

  /** Putting an entry that comes before every entry of a sorted view in
      front keeps it sorted. */
  lemma PrependSorted(s: Layout, e: nat, v: View)
    requires e < |s| && ValidView(s, v) && SortedByRowCol(s, v)
    requires v != [] ==> RowColBefore(s, e, v[0])
    ensures SortedByRowCol(s, [e] + v)
  {
    var r := [e] + v;
    forall p, q | 0 <= p < q < |r| ensures RowColBefore(s, r[p], r[q]) {
      if p == 0 {
        assert r[q] == v[q - 1];
        if q > 1 {
          RowColBeforeTransitive(s, e, v[0], v[q - 1]);
        }
      } else {
        assert r[p] == v[p - 1] && r[q] == v[q - 1];
      }
    }
  }

  /** The sorted view of the first `n` slots, built by insertion. */
  function SortPrefix(s: Layout, n: nat): (r: View)
    requires n <= |s|
    ensures |r| == n
    ensures ValidView(s, r)
  {
    if n == 0 then [] else Insert(s, n - 1, SortPrefix(s, n - 1))
  }

  /** A view with the same entries as the slots `0 .. n-1` holds no other
      slot, and lists each of them. */
  lemma SlotsBounded(v: View, n: nat)
    requires multiset(v) == multiset(Slots(n))
    ensures forall t :: 0 <= t < |v| ==> v[t] < n
  {
    forall t | 0 <= t < |v| ensures v[t] < n {
      assert v[t] in multiset(v);
      var u :| 0 <= u < n && Slots(n)[u] == v[t];
    }
  }

  lemma SlotsListed(v: View, n: nat)
    requires multiset(v) == multiset(Slots(n))
    ensures forall j :: 0 <= j < n ==> j in v
  {
    forall j | 0 <= j < n ensures j in v {
      assert Slots(n)[j] == j;
      assert j in multiset(Slots(n));
    }
  }

  lemma {:induction false} SortPrefixPermutes(s: Layout, n: nat)
    requires n <= |s|
    ensures multiset(SortPrefix(s, n)) == multiset(Slots(n))
  {
    if n > 0 {
      SortPrefixPermutes(s, n - 1);
      assert Slots(n) == Slots(n - 1) + [n - 1];
      InsertPermutes(s, n - 1, SortPrefix(s, n - 1));
    }
  }

  lemma {:induction false} SortPrefixSorted(s: Layout, n: nat)
    requires n <= |s|
    ensures SortedByRowCol(s, SortPrefix(s, n))
  {
    if n > 0 {
      var prefix := SortPrefix(s, n - 1);
      SortPrefixSorted(s, n - 1);
      SortPrefixPermutes(s, n - 1);
      SlotsBounded(prefix, n - 1);
      InsertSorted(s, n - 1, prefix);
    }
  }

  /** sortLayoutItemsByRowCol: a sorted copy of the layout, as a view. The
      layout itself is a value here, so it stays as it was. */
  function SortByRowCol(s: Layout): (r: View)
    ensures |r| == |s|
    ensures ValidView(s, r)
  {
    SortPrefix(s, |s|)
  }

  /** The sorted copy is a permutation of the slots, ordered by the
      comparator, with ties left in array order. */
  lemma SortByRowColSortedPermutation(s: Layout)
    ensures multiset(SortByRowCol(s)) == multiset(Slots(|s|))
    ensures forall j :: 0 <= j < |s| ==> j in SortByRowCol(s)
    ensures SortedByRowCol(s, SortByRowCol(s))
  {
    SortPrefixPermutes(s, |s|);
    SortPrefixSorted(s, |s|);
    SlotsListed(SortByRowCol(s), |s|);
  }

  /** The sorted copy lists every slot once, and every earlier entry compares
      at most equal to every later one, with equal ones in array order. */
  lemma {:induction false} SortByRowColAgreesWithCompare(s: Layout)
    ensures var r := SortByRowCol(s);
            (forall p, q :: 0 <= p < q < |r| ==> r[p] != r[q]) &&
            (forall p, q :: 0 <= p < q < |r| ==> Compare(s[r[p]], s[r[q]]) <= 0) &&
            (forall p, q :: 0 <= p < q < |r| && Compare(s[r[p]], s[r[q]]) == 0 ==> r[p] < r[q])
  {
    var r := SortByRowCol(s);
    SortByRowColSortedPermutation(s);
    forall p, q | 0 <= p < q < |r|
      ensures r[p] != r[q] && Compare(s[r[p]], s[r[q]]) <= 0
    {
      assert RowColBefore(s, r[p], r[q]);
    }
    forall p, q | 0 <= p < q < |r| && Compare(s[r[p]], s[r[q]]) == 0
      ensures r[p] < r[q]
    {
      assert RowColBefore(s, r[p], r[q]);
    }
  }
}
