/** `DynamicProgrammingSeamFinder.findHorizontal`: the cheapest left-to-right
    seam through a `width` x `height` picture, one row index per column,
    neighbouring columns at most one row apart. The picture and its energy
    function are one abstract input `f`, the energy of pixel `(x, y)`. */
module DynamicProgrammingSeamFinder {
  import opened Results
  import opened Sequences

  /** Row `z` of the previous column may precede row `y`: it is in range and
      at most one row away. */
  predicate Adjacent(height: int, y: int, z: int) {
    0 <= z < height && y - 1 <= z <= y + 1
  }

  /** A horizontal seam: every entry a row of the picture, neighbouring
      entries at most one row apart. */
  predicate Connected(height: int, s: seq<int>) {
    && (forall i :: 0 <= i < |s| ==> 0 <= s[i] < height)
    && (forall i :: 1 <= i < |s| ==> Adjacent(height, s[i], s[i - 1]))
  }

  /** The total energy of the seam `s`, entry `x` lying in column `x`. */
  function Energy(f: (int, int) -> real, s: seq<int>): real {
    if |s| == 0 then 0.0 else Energy(f, s[..|s| - 1]) + f(|s| - 1, s[|s| - 1])
  }

  /** `dp[x][y]`: the energy of the cheapest seam through columns `0..x`
      ending in row `y`. */
  function Cost(f: (int, int) -> real, height: nat, x: nat, y: int): real
    requires 0 <= y < height
    decreases x, 1
  {
    if x == 0 then f(0, y)
    else Cost(f, height, x - 1, Pick(f, height, x, y)) + f(x, y)
  }

  /** `edgeTo[x][y]`: the row of column `x - 1` the cheapest seam to `(x, y)`
      comes from. The running minimum starts at `y`, and only a strictly
      cheaper `y - 1`, then a strictly cheaper `y + 1`, replaces it. */
  function Pick(f: (int, int) -> real, height: nat, x: nat, y: int): (z: int)
    requires x >= 1 && 0 <= y < height
    ensures Adjacent(height, y, z)
    decreases x, 0
  {
    var m := if y > 0 && Cost(f, height, x - 1, y - 1) < Cost(f, height, x - 1, y) then y - 1 else y;
    if y < height - 1 && Cost(f, height, x - 1, y + 1) < Cost(f, height, x - 1, m) then y + 1 else m
  }

  /** The recurrence: column 0 holds each pixel's own energy; a later entry
      adds the pixel's energy to the cheapest adjacent entry of the previous
      column, preferring `y`, then `y - 1`, then `y + 1` on ties. */
  lemma Recurrence(f: (int, int) -> real, height: nat, x: nat, y: int)
    requires 0 <= y < height
    ensures x == 0 ==> Cost(f, height, x, y) == f(0, y)
    ensures x >= 1 ==>
              && Cost(f, height, x, y) == Cost(f, height, x - 1, Pick(f, height, x, y)) + f(x, y)
              && (forall w :: Adjacent(height, y, w) ==> Cost(f, height, x - 1, Pick(f, height, x, y)) <= Cost(f, height, x - 1, w))
              && (Pick(f, height, x, y) == y <==> forall w :: Adjacent(height, y, w) ==> Cost(f, height, x - 1, y) <= Cost(f, height, x - 1, w))
              && (Pick(f, height, x, y) == y - 1 ==> Cost(f, height, x - 1, y - 1) < Cost(f, height, x - 1, y))
              && (Pick(f, height, x, y) == y + 1 ==>
                    && Cost(f, height, x - 1, y + 1) < Cost(f, height, x - 1, y)
                    && (y > 0 ==> Cost(f, height, x - 1, y + 1) < Cost(f, height, x - 1, y - 1)))
  {
  }

  /** Every entry of `s` after the first comes, by `edgeTo`, from the one before. */
  predicate FollowsPointers(f: (int, int) -> real, height: nat, s: seq<int>) {
    forall i :: 1 <= i < |s| ==> 0 <= s[i] < height && s[i - 1] == Pick(f, height, i, s[i])
  }

  /** The last column's entry for row `end` is a smallest one, and no earlier
      row's entry is as small. */
  predicate FirstMinimum(f: (int, int) -> real, height: nat, x: nat, end: int) {
    && 0 <= end < height
    && (forall y :: 0 <= y < height ==> Cost(f, height, x, end) <= Cost(f, height, x, y))
    && (forall y :: 0 <= y < end ==> Cost(f, height, x, end) < Cost(f, height, x, y))
  }

  /** The seam the back pointers trace from `(x, y)` back to column 0, in
      column order. */
  function Trace(f: (int, int) -> real, height: nat, x: nat, y: int): (s: seq<int>)
    requires 0 <= y < height
    ensures |s| == x + 1 && s[x] == y
    ensures Connected(height, s)
    ensures FollowsPointers(f, height, s)
  {
    if x == 0 then [y]
    else
      var prev := Trace(f, height, x - 1, Pick(f, height, x, y));
      assert forall i :: 0 <= i < x ==> (prev + [y])[i] == prev[i];
      prev + [y]
  }

  /** The traced seam costs exactly what the table says. */
  lemma {:induction false} TraceEnergy(f: (int, int) -> real, height: nat, x: nat, y: int)
    requires 0 <= y < height
    ensures Energy(f, Trace(f, height, x, y)) == Cost(f, height, x, y)
  {
    if x > 0 {
      var s := Trace(f, height, x, y);
      TraceEnergy(f, height, x - 1, Pick(f, height, x, y));
      assert s[..x] == Trace(f, height, x - 1, Pick(f, height, x, y));
    }
  }

  /** No seam through columns `0..x` ending in row `y` is cheaper than the table. */
  lemma {:induction false} CostIsMinimal(f: (int, int) -> real, height: nat, s: seq<int>)
    requires |s| > 0 && Connected(height, s)
    ensures Cost(f, height, |s| - 1, s[|s| - 1]) <= Energy(f, s)
    decreases |s|
  {
    var x := |s| - 1;
    if x > 0 {
      var init := s[..x];
      assert Connected(height, init);
      CostIsMinimal(f, height, init);
      assert Adjacent(height, s[x], init[x - 1]);
    }
  }

  /** The seam traced from a smallest entry of column `x` is no more
      expensive than any connected seam through columns `0..x`. */
  lemma TraceIsCheapest(f: (int, int) -> real, height: nat, x: nat, y: int, s: seq<int>)
    requires FirstMinimum(f, height, x, y)
    requires |s| == x + 1 && Connected(height, s)
    ensures Energy(f, Trace(f, height, x, y)) <= Energy(f, s)
  {
    TraceEnergy(f, height, x, y);
    CostIsMinimal(f, height, s);
    assert 0 <= s[x] < height;
  }

  /** `findHorizontal` on a picture's (never negative) width and height.
      A picture without columns or rows makes the Java
      code read `dp[width - 1][0]` out of bounds. Otherwise the result is
      the seam traced back from the first row with the smallest last-column
      entry, and no connected seam across the picture costs less. */
  method FindHorizontal(width: nat, height: nat, f: (int, int) -> real) returns (r: Result<seq<int>>)
    ensures r.Err? <==> width == 0 || height == 0
    ensures r.Err? ==> r.error == IndexOutOfBounds
    ensures r.Ok? ==>
              && |r.value| == width && Connected(height, r.value)
              && r.value == Trace(f, height, width - 1, r.value[width - 1])
              && Energy(f, r.value) == Cost(f, height, width - 1, r.value[width - 1])
              && FirstMinimum(f, height, width - 1, r.value[width - 1])
              && (forall s :: |s| == width && Connected(height, s) ==> Energy(f, r.value) <= Energy(f, s))
  {
    if width == 0 || height == 0 {
      return Err(IndexOutOfBounds);
    }
    var dp, edgeTo := Table(width, height, f);
    var end := LastColumnMin(dp[width - 1]);
    assert FirstMinimum(f, height, width - 1, end) by {
      assert CostColumn(f, height, width - 1, dp[width - 1]);
    }
    var back := WalkBack(edgeTo, f, height, end);
    var seam := Reverse(back);
    ghost var t := Trace(f, height, width - 1, end);
    ReversedWalk(back, t);
    TraceEnergy(f, height, width - 1, end);
    forall s | |s| == width && Connected(height, s) ensures Energy(f, t) <= Energy(f, s) {
      TraceIsCheapest(f, height, width - 1, end, s);
    }
    return Ok(seam);
  }

  /** A walk listing `t` last entry first, reversed, is `t`. */
  lemma ReversedWalk(back: seq<int>, t: seq<int>)
    requires |back| == |t|
    requires forall i :: 0 <= i < |back| ==> back[i] == t[|t| - 1 - i]
    ensures Reverse(back) == t
  {
  }

  /** The back-pointer walk from row `end` of the last column: the rows of
      the traced seam, last column first. */
  method WalkBack(edgeTo: seq<seq<int>>, f: (int, int) -> real, height: nat, end: int) returns (back: seq<int>)
    requires |edgeTo| >= 1 && |edgeTo[0]| == height && 0 <= end < height
    requires forall x :: 1 <= x < |edgeTo| ==> PickColumn(f, height, x, edgeTo[x])
    ensures |back| == |edgeTo|
    ensures forall i :: 0 <= i < |back| ==> back[i] == Trace(f, height, |edgeTo| - 1, end)[|edgeTo| - 1 - i]
  {
    var width := |edgeTo|;
    ghost var t := Trace(f, height, width - 1, end);
    back := [];
    var current := end;
    var x := width - 1;
    while x >= 0
      invariant -1 <= x < width
      invariant |back| == width - 1 - x
      invariant forall i :: 0 <= i < |back| ==> back[i] == t[width - 1 - i]
      invariant x >= 0 ==> current == t[x]
    {
      back := back + [current];
      if x >= 1 {
        assert PickColumn(f, height, x, edgeTo[x]);
        current := edgeTo[x][current];
      } else {
        current := edgeTo[x][current];
      }
      x := x - 1;
    }
  }

  /** `col` holds column `x` of `dp`. */
  predicate CostColumn(f: (int, int) -> real, height: nat, x: nat, col: seq<real>) {
    |col| == height && forall y :: 0 <= y < height ==> col[y] == Cost(f, height, x, y)
  }

  /** `from` holds column `x` of `edgeTo`. */
  predicate PickColumn(f: (int, int) -> real, height: nat, x: nat, from: seq<int>) {
    |from| == height && forall y :: 0 <= y < height ==> x >= 1 && from[y] == Pick(f, height, x, y)
  }

  /** The two tables: column `x` of `dp` holds `Cost(x, _)` and, from column 1
      on, column `x` of `edgeTo` holds `Pick(x, _)`; column 0 of `edgeTo` keeps
      Java's default 0 entries. */
  method Table(width: int, height: nat, f: (int, int) -> real) returns (dp: seq<seq<real>>, edgeTo: seq<seq<int>>)
    requires width >= 1
    ensures |dp| == width && |edgeTo| == width && |edgeTo[0]| == height
    ensures forall x :: 0 <= x < width ==> CostColumn(f, height, x, dp[x])
    ensures forall x :: 1 <= x < width ==> PickColumn(f, height, x, edgeTo[x])
  {
    var first := FirstColumn(height, f);
    dp := [first];
    edgeTo := [seq(height, y => 0)];
    var x := 1;
    while x < width
      invariant 1 <= x <= width
      invariant |dp| == x && |edgeTo| == x && |edgeTo[0]| == height
      invariant forall c :: 0 <= c < x ==> CostColumn(f, height, c, dp[c])
      invariant forall c :: 1 <= c < x ==> PickColumn(f, height, c, edgeTo[c])
    {
      var col, from := NextColumn(dp[x - 1], f, height, x);
      dp := dp + [col];
      edgeTo := edgeTo + [from];
      x := x + 1;
    }
  }

  /** Column 0 of `dp`: each pixel's own energy. */
  method FirstColumn(height: nat, f: (int, int) -> real) returns (col: seq<real>)
    ensures CostColumn(f, height, 0, col)
  {
    col := [];
    var y := 0;
    while y < height
      invariant 0 <= y <= height && |col| == y
      invariant forall z :: 0 <= z < y ==> col[z] == f(0, z)
    {
      col := col + [f(0, y)];
      y := y + 1;
    }
  }

  /** Column `x` of both tables from column `x - 1` of `dp`. */
  method NextColumn(prev: seq<real>, f: (int, int) -> real, height: nat, x: nat) returns (col: seq<real>, from: seq<int>)
    requires x >= 1 && CostColumn(f, height, x - 1, prev)
    ensures CostColumn(f, height, x, col) && PickColumn(f, height, x, from)
  {
    col, from := [], [];
    var y := 0;
    while y < height
      invariant 0 <= y <= height && |col| == y && |from| == y
      invariant forall z :: 0 <= z < y ==> col[z] == Cost(f, height, x, z) && from[z] == Pick(f, height, x, z)
    {
      var minCost := prev[y];
      var minIndex := y;
      if y > 0 && prev[y - 1] < minCost {
        minCost := prev[y - 1];
        minIndex := y - 1;
      }
      if y < height - 1 && prev[y + 1] < minCost {
        minCost := prev[y + 1];
        minIndex := y + 1;
      }
      assert minIndex == Pick(f, height, x, y);
      col := col + [minCost + f(x, y)];
      from := from + [minIndex];
      y := y + 1;
    }
  }

  /** The first row of the last column with the smallest entry. */
  method LastColumnMin(last: seq<real>) returns (end: int)
    requires |last| >= 1
    ensures 0 <= end < |last|
    ensures forall y :: 0 <= y < |last| ==> last[end] <= last[y]
    ensures forall y :: 0 <= y < end ==> last[end] < last[y]
  {
    end := 0;
    var minEnergy := last[0];
    var y := 1;
    while y < |last|
      invariant 1 <= y <= |last| && 0 <= end < y && minEnergy == last[end]
      invariant forall z :: 0 <= z < y ==> minEnergy <= last[z]
      invariant forall z :: 0 <= z < end ==> minEnergy < last[z]
    {
      if last[y] < minEnergy {
        minEnergy := last[y];
        end := y;
      }
      y := y + 1;
    }
  }
}
