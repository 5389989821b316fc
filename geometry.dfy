/** The height of a layout in rows: bottom. */
module Geometry {
  import opened GridItems

  /** The largest `y + h` over the items, starting from 0: an empty layout,
      or one whose items all end at or above row 0, has bottom 0. */
  function MaxBottom(s: Layout): (m: int)
    ensures m >= 0
    ensures forall j :: 0 <= j < |s| ==> s[j].y + s[j].h <= m
    ensures m == 0 || exists j :: 0 <= j < |s| && s[j].y + s[j].h == m
  {
    if |s| == 0 then 0
    else
      var n := |s| - 1;
      var m0 := MaxBottom(s[..n]);
      assert forall j :: 0 <= j < n ==> s[..n][j] == s[j];
      var bottomY := s[n].y + s[n].h;
      if bottomY > m0 then bottomY else m0
  }

  /** bottom as the source writes it: one pass with a running maximum. */
  method Bottom(layout: array<Item>) returns (max: int)
    ensures max == MaxBottom(layout[..])
  {
    max := 0;
    var i := 0;
    while i < layout.Length
      invariant 0 <= i <= layout.Length
      invariant max == MaxBottom(layout[..i])
    {
      assert layout[..i + 1][..i] == layout[..i];
      var bottomY := layout[i].y + layout[i].h;
      if bottomY > max {
        max := bottomY;
      }
      i := i + 1;
    }
    assert layout[..i] == layout[..];
  }
}
