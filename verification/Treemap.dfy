// The squarified treemap of the asset visualization page, over real numbers
// (squarify in web/src/vizModel.ts).

module Treemap {

  datatype Rect = Rect(x: real, y: real, width: real, height: real)

  // ----- sums and extremes -----

  function Sum(s: seq<real>): real {
    if s == [] then 0.0 else Sum(s[..|s| - 1]) + s[|s| - 1]
  }

  function Max(s: seq<real>): (m: real)
    requires s != []
    ensures m in s && forall v :: v in s ==> v <= m
  {
    if |s| == 1 then s[0] else
      var front := s[..|s| - 1];
      assert s == front + [s[|s| - 1]];
      if Max(front) >= s[|s| - 1] then Max(front) else s[|s| - 1]
  }

  function Min(s: seq<real>): (m: real)
    requires s != []
    ensures m in s && forall v :: v in s ==> m <= v
  {
    if |s| == 1 then s[0] else
      var front := s[..|s| - 1];
      assert s == front + [s[|s| - 1]];
      if Min(front) <= s[|s| - 1] then Min(front) else s[|s| - 1]
  }

  predicate Positive(s: seq<real>) {
    forall i :: 0 <= i < |s| ==> s[i] > 0.0
  }

  lemma {:induction false} SumPositive(s: seq<real>)
    requires Positive(s)
    ensures Sum(s) >= 0.0 && (s != [] ==> Sum(s) > 0.0)
  {
    if s != [] { SumPositive(s[..|s| - 1]); }
  }

  lemma {:induction false} SumConcat(a: seq<real>, b: seq<real>)
    ensures Sum(a + b) == Sum(a) + Sum(b)
  {
    if b == [] {
      assert a + b == a;
    } else {
      assert (a + b)[..|a + b| - 1] == a + b[..|b| - 1];
      SumConcat(a, b[..|b| - 1]);
    }
  }

  function Scaled(values: seq<real>, scale: real): (s: seq<real>)
    ensures |s| == |values| && forall i :: 0 <= i < |s| ==> s[i] == values[i] * scale
  {
    seq(|values|, i requires 0 <= i < |values| => values[i] * scale)
  }

  lemma {:induction false} SumScaled(values: seq<real>, scale: real)
    ensures Sum(Scaled(values, scale)) == Sum(values) * scale
  {
    if values != [] {
      var front := values[..|values| - 1];
      var all, most := Scaled(values, scale), Scaled(front, scale);
      assert forall i :: 0 <= i < |front| ==> all[..|front|][i] == most[i];
      assert all[..|all| - 1] == most;
      SumScaled(front, scale);
    }
  }

  // ----- rectangles -----

  function Area(r: Rect): real {
    r.width * r.height
  }

  ghost predicate Proper(r: Rect) {
    r.width >= 0.0 && r.height >= 0.0
  }

  ghost predicate Inside(a: Rect, b: Rect) {
    && b.x <= a.x && a.x + a.width <= b.x + b.width
    && b.y <= a.y && a.y + a.height <= b.y + b.height
  }

  function Greater(a: real, b: real): real {
    if a >= b then a else b
  }

  function Lesser(a: real, b: real): real {
    if a <= b then a else b
  }

  /** The rectangles share interior points. */
  ghost predicate Overlap(a: Rect, b: Rect) {
    && Greater(a.x, b.x) < Lesser(a.x + a.width, b.x + b.width)
    && Greater(a.y, b.y) < Lesser(a.y + a.height, b.y + b.height)
  }

  ghost predicate Within(r: Rect, x: real, y: real) {
    r.x < x < r.x + r.width && r.y < y < r.y + r.height
  }

  lemma OverlapMeans(a: Rect, b: Rect)
    requires Drawn(a) && Drawn(b)
    ensures Overlap(a, b) <==> exists x, y :: Within(a, x, y) && Within(b, x, y)
  {
    if Overlap(a, b) {
      var x := (Greater(a.x, b.x) + Lesser(a.x + a.width, b.x + b.width)) / 2.0;
      var y := (Greater(a.y, b.y) + Lesser(a.y + a.height, b.y + b.height)) / 2.0;
      assert Within(a, x, y) && Within(b, x, y);
    }
  }

  lemma InsideKeepsApart(a: Rect, outerA: Rect, b: Rect, outerB: Rect)
    requires Inside(a, outerA) && Inside(b, outerB) && !Overlap(outerA, outerB)
    ensures !Overlap(a, b)
  {
  }

  // ----- choosing a row -----

  lemma MinPositive(row: seq<real>)
    requires row != [] && Positive(row)
    ensures Min(row) > 0.0
  {
    assert Min(row) in row;
  }

  function Times(a: real, b: real): (p: real)
    ensures a > 0.0 && b > 0.0 ==> p > 0.0
  {
    a * b
  }

  /** How flat a tile of this value is, across and along a row with this sum. */
  function Wide(value: real, sum: real, side: real): real
    requires value > 0.0 && sum > 0.0 && side > 0.0
  {
    Times(side, side) * value / Times(sum, sum)
  }

  function Thin(value: real, sum: real, side: real): real
    requires value > 0.0 && sum > 0.0 && side > 0.0
  {
    Times(sum, sum) / Times(Times(side, side), value)
  }

  /** The source's measure of a row laid along a side. */
  function Worst(row: seq<real>, side: real): real
    requires row != [] && Positive(row) && side > 0.0
  {
    SumPositive(row);
    MinPositive(row);
    Greater(Wide(Max(row), Sum(row), side), Thin(Min(row), Sum(row), side))
  }

  /** Whether adding the next value makes the row worse. With no side left every ratio is
      undefined, and comparing undefined numbers answers no. */
  predicate Worsens(candidate: seq<real>, row: seq<real>, side: real) {
    && side > 0.0 && row != [] && candidate != [] && Positive(row) && Positive(candidate)
    && Worst(candidate, side) > Worst(row, side)
  }

  /** Nothing to lay out has a size, or everything has and fills the space exactly. */
  ghost predicate Fits(scaled: seq<real>, remaining: Rect) {
    && Proper(remaining)
    && if Side(remaining) > 0.0 then Positive(scaled) && Sum(scaled) == Area(remaining)
       else forall i :: 0 <= i < |scaled| ==> scaled[i] == 0.0
  }

  function Horizontal(r: Rect): bool {
    r.width >= r.height
  }

  function Side(r: Rect): real {
    if Horizontal(r) then r.height else r.width
  }

  /** Grows a row while the next value does not make it worse. */
  function Grow(worsens: nat -> bool, length: nat, limit: nat): (n: nat)
    requires length <= limit
    ensures length <= n <= limit
    decreases limit - length
  {
    if length < limit && !worsens(length) then Grow(worsens, length + 1, limit) else length
  }

  /** How many of the values the source puts into the next row. */
  function RowLength(scaled: seq<real>, side: real): (n: nat)
    requires scaled != []
    ensures 0 < n <= |scaled|
  {
    Grow(n => 0 < n < |scaled| && Worsens(scaled[..n + 1], scaled[..n], side), 1, |scaled|)
  }

  lemma {:induction false} GrowDescends(worsens: nat -> bool, measure: nat -> real, length: nat, limit: nat)
    requires length <= limit
    requires forall n :: length <= n < limit ==> (worsens(n) <==> measure(n + 1) > measure(n))
    ensures var n := Grow(worsens, length, limit);
      && measure(n) <= measure(length) && (n < limit ==> measure(n + 1) > measure(n))
      && forall k :: length <= k < n ==> measure(k + 1) <= measure(k)
    decreases limit - length
  {
    if length < limit && !worsens(length) {
      GrowDescends(worsens, measure, length + 1, limit);
      assert measure(length + 1) <= measure(length);
    }
  }

  ghost function RowMeasure(scaled: seq<real>, side: real): nat -> real
    requires side > 0.0 && Positive(scaled)
  {
    n => if 0 < n <= |scaled| then Worst(scaled[..n], side) else 0.0
  }

  /** The row the source picks is greedy: no value in it made it worse, so it is no worse than its
      first value alone, and one more value would make it worse. */
  lemma RowIsGreedy(scaled: seq<real>, side: real)
    requires scaled != [] && side > 0.0 && Positive(scaled)
    ensures var n := RowLength(scaled, side);
      && RowMeasure(scaled, side)(n) <= RowMeasure(scaled, side)(1)
      && (n < |scaled| ==> RowMeasure(scaled, side)(n + 1) > RowMeasure(scaled, side)(n))
      && forall k :: 1 <= k < n ==> RowMeasure(scaled, side)(k + 1) <= RowMeasure(scaled, side)(k)
  {
    var worsens := n => 0 < n < |scaled| && Worsens(scaled[..n + 1], scaled[..n], side);
    var measure := RowMeasure(scaled, side);
    forall n | 1 <= n < |scaled| ensures worsens(n) <==> measure(n + 1) > measure(n) {
    }
    GrowDescends(worsens, measure, 1, |scaled|);
  }

  // ----- placing a row -----

  function Thickness(row: seq<real>, side: real): real {
    if side > 0.0 then Sum(row) / side else 0.0
  }

  function Length(value: real, thickness: real, side: real): real {
    if side > 0.0 && thickness != 0.0 then value / thickness else 0.0
  }

  function Offset(row: seq<real>, thickness: real, side: real): real {
    if row == [] then 0.0
    else Offset(row[..|row| - 1], thickness, side) + Length(row[|row| - 1], thickness, side)
  }

  function TileAt(remaining: Rect, thickness: real, offset: real, length: real): Rect {
    if Horizontal(remaining) then Rect(remaining.x, remaining.y + offset, thickness, length)
    else Rect(remaining.x + offset, remaining.y, length, thickness)
  }

  function RowTiles(row: seq<real>, remaining: Rect): (tiles: seq<Rect>)
    ensures |tiles| == |row|
  {
    var side := Side(remaining);
    var thickness := Thickness(row, side);
    seq(|row|, k requires 0 <= k < |row| =>
      TileAt(remaining, thickness, Offset(row[..k], thickness, side), Length(row[k], thickness, side)))
  }

  function Rest(remaining: Rect, thickness: real): Rect {
    if Horizontal(remaining)
    then Rect(remaining.x + thickness, remaining.y, Greater(0.0, remaining.width - thickness), remaining.height)
    else Rect(remaining.x, remaining.y + thickness, remaining.width, Greater(0.0, remaining.height - thickness))
  }

  /** The strip a row occupies. */
  function Strip(remaining: Rect, thickness: real): Rect {
    if Horizontal(remaining) then Rect(remaining.x, remaining.y, thickness, remaining.height)
    else Rect(remaining.x, remaining.y, remaining.width, thickness)
  }

  /** The layout as the source builds it: row after row into what remains. */
  ghost function Layout(scaled: seq<real>, remaining: Rect): (tiles: seq<Rect>)
    ensures |tiles| == |scaled|
    decreases |scaled|
  {
    if scaled == [] then [] else
      var n := RowLength(scaled, Side(remaining));
      RowTiles(scaled[..n], remaining)
      + Layout(scaled[n..], Rest(remaining, Thickness(scaled[..n], Side(remaining))))
  }

  lemma Quotient(a: real, b: real)
    requires b > 0.0
    ensures a / b * b == a && b * (a / b) == a
  {
  }

  lemma CancelLeq(a: real, b: real, c: real)
    requires c > 0.0 && a * c <= b * c
    ensures a <= b
  {
    assert (a - b) * c == a * c - b * c;
    assert a > b ==> (a - b) * c > 0.0;
  }

  /** The side a row is stacked away from. */
  function Other(r: Rect): real {
    if Horizontal(r) then r.width else r.height
  }

  lemma RowTakesLess(taken: real, left: real, side: real, other: real)
    requires taken > 0.0 && left >= 0.0 && side > 0.0 && taken + left == other * side
    ensures var thickness := taken / side;
      && 0.0 < thickness <= other && thickness * side == taken
      && (other - thickness) * side == left
      && (left == 0.0 ==> thickness == other)
  {
    var thickness := taken / side;
    Quotient(taken, side);
    CancelLeq(thickness, other, side);
    if left == 0.0 { CancelLeq(other, thickness, side); }
    NotPositiveProduct(thickness, side);
  }

  lemma NotPositiveProduct(a: real, b: real)
    requires b > 0.0
    ensures a <= 0.0 ==> a * b <= 0.0
  {
  }

  lemma RestArea(remaining: Rect, thickness: real)
    requires Proper(remaining) && 0.0 <= thickness <= Other(remaining)
    ensures Proper(Rest(remaining, thickness))
    ensures Area(Rest(remaining, thickness)) == (Other(remaining) - thickness) * Side(remaining)
  {
  }

  /** A row takes no more than what is there, and what it leaves fits the other values. */
  lemma RestFits(scaled: seq<real>, n: nat, remaining: Rect)
    requires Fits(scaled, remaining) && 0 < n <= |scaled|
    ensures var side := Side(remaining);
      var thickness := Thickness(scaled[..n], side);
      && Fits(scaled[n..], Rest(remaining, thickness))
      && 0.0 <= thickness <= Other(remaining)
      && (side > 0.0 ==> thickness > 0.0 && thickness * side == Sum(scaled[..n]))
  {
    if Side(remaining) > 0.0 {
      SplitSum(scaled, n);
      RestFitsSpace(Sum(scaled[..n]), scaled[n..], remaining);
    }
  }

  lemma SplitSum(scaled: seq<real>, n: nat)
    requires Positive(scaled) && 0 < n <= |scaled|
    ensures Positive(scaled[n..]) && Sum(scaled[..n]) > 0.0 && Sum(scaled[..n]) + Sum(scaled[n..]) == Sum(scaled)
  {
    assert scaled == scaled[..n] + scaled[n..];
    SumConcat(scaled[..n], scaled[n..]);
    SumPositive(scaled[..n]);
  }

  lemma RestFitsSpace(taken: real, rest: seq<real>, remaining: Rect)
    requires Proper(remaining) && Side(remaining) > 0.0 && taken > 0.0 && Positive(rest)
    requires taken + Sum(rest) == Area(remaining)
    ensures var thickness := taken / Side(remaining);
      && Fits(rest, Rest(remaining, thickness))
      && 0.0 < thickness <= Other(remaining) && thickness * Side(remaining) == taken
  {
    var side, thickness := Side(remaining), taken / Side(remaining);
    SumPositive(rest);
    AreaBySides(remaining);
    RowTakesLess(taken, Sum(rest), side, Other(remaining));
    RestArea(remaining, thickness);
    AreaSign(Rest(remaining, thickness));
  }

  lemma AreaBySides(r: Rect)
    ensures Area(r) == Other(r) * Side(r)
  {
  }

  // ----- geometry of one row -----

  lemma {:induction false} OffsetTimesThickness(row: seq<real>, thickness: real, side: real)
    requires side > 0.0 && thickness > 0.0
    ensures Offset(row, thickness, side) * thickness == Sum(row)
  {
    if row != [] {
      var front, last := row[..|row| - 1], row[|row| - 1];
      OffsetTimesThickness(front, thickness, side);
      Quotient(last, thickness);
      assert Offset(row, thickness, side) * thickness
        == Offset(front, thickness, side) * thickness + last / thickness * thickness;
    }
  }

  lemma OffsetWithin(row: seq<real>, k: nat, thickness: real, side: real)
    requires Positive(row) && k <= |row| && side > 0.0 && thickness > 0.0 && thickness * side == Sum(row)
    ensures 0.0 <= Offset(row[..k], thickness, side) <= side
  {
    OffsetTimesThickness(row[..k], thickness, side);
    SumPositive(row[..k]);
    SumPositive(row[k..]);
    assert row == row[..k] + row[k..];
    SumConcat(row[..k], row[k..]);
    BetweenProducts(Offset(row[..k], thickness, side), side, thickness, Sum(row[..k]), Sum(row));
  }

  lemma BetweenProducts(a: real, b: real, c: real, p: real, q: real)
    requires c > 0.0 && a * c == p && c * b == q && 0.0 <= p <= q
    ensures 0.0 <= a <= b
  {
    CancelLeq(0.0, a, c);
    CancelLeq(a, b, c);
  }

  /** The values of a row, laid one after the other, stay within the side. */
  ghost predicate Stacked(row: seq<real>, thickness: real, side: real) {
    && (forall k :: 0 <= k <= |row| ==> 0.0 <= Offset(row[..k], thickness, side) <= side)
    && (forall k :: 0 <= k < |row| ==> Length(row[k], thickness, side) > 0.0)
  }

  lemma RowStacks(row: seq<real>, thickness: real, side: real)
    requires Positive(row) && side > 0.0 && thickness > 0.0 && thickness * side == Sum(row)
    ensures Stacked(row, thickness, side)
  {
    forall k | 0 <= k <= |row| ensures 0.0 <= Offset(row[..k], thickness, side) <= side {
      OffsetWithin(row, k, thickness, side);
    }
    forall k | 0 <= k < |row| ensures Length(row[k], thickness, side) > 0.0 {
      LengthPositive(row[k], thickness, side);
    }
  }

  /** Where tile `k` of a row ends, tile `k + 1` begins. */
  lemma OffsetStep(row: seq<real>, k: nat, thickness: real, side: real)
    requires k < |row|
    ensures Offset(row[..k + 1], thickness, side) == Offset(row[..k], thickness, side) + Length(row[k], thickness, side)
  {
    assert row[..k + 1][..k] == row[..k];
  }

  lemma LengthPositive(value: real, thickness: real, side: real)
    requires value > 0.0 && thickness > 0.0 && side > 0.0
    ensures Length(value, thickness, side) > 0.0 && Length(value, thickness, side) * thickness == value
  {
    var length := Length(value, thickness, side);
    Quotient(value, thickness);
    assert length <= 0.0 ==> length * thickness <= 0.0;
  }

  lemma {:induction false} OffsetMonotone(row: seq<real>, j: nat, k: nat, thickness: real, side: real)
    requires Stacked(row, thickness, side) && j <= k <= |row|
    ensures Offset(row[..j], thickness, side) <= Offset(row[..k], thickness, side)
    decreases k
  {
    if j < k {
      OffsetMonotone(row, j, k - 1, thickness, side);
      OffsetStep(row, k - 1, thickness, side);
    }
  }

  ghost predicate Tiled(scaled: seq<real>, tiles: seq<Rect>, space: Rect) {
    && |tiles| == |scaled|
    && (forall i :: 0 <= i < |tiles| ==> Proper(tiles[i]) && Area(tiles[i]) == scaled[i] && Inside(tiles[i], space))
    && (forall i, j :: 0 <= i < j < |tiles| ==> !Overlap(tiles[i], tiles[j]))
  }

  lemma TileInStrip(row: seq<real>, remaining: Rect, i: nat, thickness: real)
    requires Proper(remaining) && thickness > 0.0 && i < |row|
    requires thickness == Thickness(row, Side(remaining)) && Stacked(row, thickness, Side(remaining))
    ensures Proper(RowTiles(row, remaining)[i]) && Inside(RowTiles(row, remaining)[i], Strip(remaining, thickness))
  {
    OffsetStep(row, i, thickness, Side(remaining));
  }

  lemma TilesApart(row: seq<real>, remaining: Rect, i: nat, j: nat, thickness: real)
    requires Proper(remaining) && i < j < |row|
    requires thickness == Thickness(row, Side(remaining)) && Stacked(row, thickness, Side(remaining))
    ensures !Overlap(RowTiles(row, remaining)[i], RowTiles(row, remaining)[j])
  {
    OffsetStep(row, i, thickness, Side(remaining));
    OffsetMonotone(row, i + 1, j, thickness, Side(remaining));
  }

  lemma TileArea(row: seq<real>, remaining: Rect, i: nat, thickness: real)
    requires Positive(row) && Side(remaining) > 0.0 && thickness > 0.0 && i < |row|
    requires thickness == Thickness(row, Side(remaining))
    ensures Area(RowTiles(row, remaining)[i]) == row[i]
  {
    LengthPositive(row[i], thickness, Side(remaining));
  }

  /** A row tiles its strip. */
  lemma RowTiled(row: seq<real>, remaining: Rect)
    requires Proper(remaining) && Side(remaining) > 0.0 && Positive(row) && row != []
    requires Thickness(row, Side(remaining)) > 0.0
    ensures Tiled(row, RowTiles(row, remaining), Strip(remaining, Thickness(row, Side(remaining))))
  {
    var side := Side(remaining);
    var thickness := Thickness(row, side);
    var tiles := RowTiles(row, remaining);
    Quotient(Sum(row), side);
    RowStacks(row, thickness, side);
    forall i | 0 <= i < |tiles|
      ensures Proper(tiles[i]) && Area(tiles[i]) == row[i] && Inside(tiles[i], Strip(remaining, thickness))
    {
      TileInStrip(row, remaining, i, thickness);
      TileArea(row, remaining, i, thickness);
    }
    forall i, j | 0 <= i < j < |tiles| ensures !Overlap(tiles[i], tiles[j]) {
      TilesApart(row, remaining, i, j, thickness);
    }
  }

  /** With no space every tile is empty. */
  lemma EmptyRowTiled(row: seq<real>, remaining: Rect)
    requires Proper(remaining) && Side(remaining) <= 0.0 && forall i :: 0 <= i < |row| ==> row[i] == 0.0
    ensures Tiled(row, RowTiles(row, remaining), remaining)
  {
    var tiles := RowTiles(row, remaining);
    forall i | 0 <= i < |tiles| ensures tiles[i] == Rect(remaining.x, remaining.y, 0.0, 0.0) {
      EmptyOffset(row[..i], Side(remaining));
    }
  }

  lemma {:induction false} EmptyOffset(row: seq<real>, side: real)
    requires side <= 0.0
    ensures Offset(row, 0.0, side) == 0.0
  {
    if row != [] { EmptyOffset(row[..|row| - 1], side); }
  }

  lemma StripAndRest(remaining: Rect, thickness: real)
    requires Proper(remaining) && 0.0 <= thickness <= Other(remaining)
    ensures Inside(Strip(remaining, thickness), remaining) && Inside(Rest(remaining, thickness), remaining)
    ensures !Overlap(Strip(remaining, thickness), Rest(remaining, thickness))
    ensures Side(remaining) <= 0.0 && thickness == 0.0 ==> Rest(remaining, thickness) == remaining
  {
  }

  lemma TilesBeside(a: seq<real>, s: seq<Rect>, left: Rect, b: seq<real>, t: seq<Rect>, right: Rect, space: Rect)
    requires Tiled(a, s, left) && Tiled(b, t, right)
    requires Inside(left, space) && Inside(right, space) && !Overlap(left, right)
    ensures Tiled(a + b, s + t, space)
  {
    var tiles, scaled := s + t, a + b;
    forall i | 0 <= i < |tiles|
      ensures Proper(tiles[i]) && Area(tiles[i]) == scaled[i] && Inside(tiles[i], space)
    {
      if i < |s| { assert tiles[i] == s[i]; } else { assert tiles[i] == t[i - |s|]; }
    }
    forall i, j | 0 <= i < j < |tiles| ensures !Overlap(tiles[i], tiles[j]) {
      if i < |s| <= j {
        assert tiles[i] == s[i] && tiles[j] == t[j - |s|];
        InsideKeepsApart(s[i], left, t[j - |s|], right);
      } else if j < |s| {
        assert !Overlap(s[i], s[j]);
      } else {
        assert !Overlap(t[i - |s|], t[j - |s|]);
      }
    }
  }

  lemma RowAndRestTiled(row: seq<real>, rest: seq<real>, tail: seq<Rect>, space: Rect, thickness: real)
    requires Proper(space) && row != [] && thickness == Thickness(row, Side(space)) && 0.0 <= thickness <= Other(space)
    requires Tiled(rest, tail, Rest(space, thickness))
    requires if Side(space) > 0.0 then Positive(row) && thickness > 0.0
      else forall i :: 0 <= i < |row| ==> row[i] == 0.0
    ensures Tiled(row + rest, RowTiles(row, space) + tail, space)
  {
    StripAndRest(space, thickness);
    if Side(space) > 0.0 {
      RowTiled(row, space);
      TilesBeside(row, RowTiles(row, space), Strip(space, thickness), rest, tail, Rest(space, thickness), space);
    } else {
      EmptyRowTiled(row, space);
      EmptyTiles(row, RowTiles(row, space), rest, tail, space);
    }
  }

  /** The layout tiles the space: one tile per value with exactly its area, inside, no overlap. */
  lemma {:induction false} LayoutTiled(scaled: seq<real>, space: Rect)
    requires Fits(scaled, space)
    ensures Tiled(scaled, Layout(scaled, space), space)
    decreases |scaled|
  {
    if scaled != [] {
      var n := RowLength(scaled, Side(space));
      var row, rest := scaled[..n], scaled[n..];
      var thickness := Thickness(row, Side(space));
      RestFits(scaled, n, space);
      LayoutTiled(rest, Rest(space, thickness));
      assert scaled == row + rest;
      RowAndRestTiled(row, rest, Layout(rest, Rest(space, thickness)), space, thickness);
    }
  }

  lemma EmptyTiles(a: seq<real>, s: seq<Rect>, b: seq<real>, t: seq<Rect>, space: Rect)
    requires Tiled(a, s, space) && Tiled(b, t, space)
    requires Proper(space) && Side(space) <= 0.0
    ensures Tiled(a + b, s + t, space)
  {
    var tiles, scaled := s + t, a + b;
    forall i | 0 <= i < |tiles|
      ensures Proper(tiles[i]) && Area(tiles[i]) == scaled[i] && Inside(tiles[i], space)
    {
      if i < |s| { assert tiles[i] == s[i]; } else { assert tiles[i] == t[i - |s|]; }
    }
  }

  // ----- what the row measure means -----

  predicate Drawn(r: Rect) {
    r.width > 0.0 && r.height > 0.0
  }

  function AspectRatio(r: Rect): real
    requires Drawn(r)
  {
    Greater(r.width / r.height, r.height / r.width)
  }

  lemma DivideMonotone(a: real, b: real, c: real)
    requires c > 0.0 && a <= b
    ensures a / c <= b / c
  {
    Quotient(a, c);
    Quotient(b, c);
    CancelLeq(a / c, b / c, c);
  }

  lemma CrossDivide(a: real, b: real, c: real, d: real)
    requires b > 0.0 && d > 0.0 && a * d == c * b
    ensures a / b == c / d
  {
    Quotient(a, b);
    Quotient(c, d);
    var p, q := a / b, c / d;
    var bd := Times(b, d);
    assert p * bd == p * b * d == a * d;
    assert q * bd == q * d * b == c * b;
    CancelLeq(p, q, bd);
    CancelLeq(q, p, bd);
  }

  /** The two ratios of one tile, as the measure writes them. */
  lemma TileRatios(value: real, sum: real, side: real, thickness: real, length: real)
    requires value > 0.0 && sum > 0.0 && side > 0.0 && thickness > 0.0 && length > 0.0
    requires thickness * side == sum && length * thickness == value
    ensures length / thickness == Wide(value, sum, side) && thickness / length == Thin(value, sum, side)
  {
    var s2, t2 := side * side, thickness * thickness;
    assert sum * sum == s2 * t2 by {
      assert sum * sum == thickness * side * (thickness * side);
    }
    assert length * (s2 * t2) == s2 * (length * thickness) * thickness;
    CrossDivide(length, thickness, Times(side, side) * value, Times(sum, sum));
    assert thickness * (s2 * value) == s2 * t2 * length;
    CrossDivide(thickness, length, Times(sum, sum), Times(Times(side, side), value));
  }

  lemma InverseMonotone(a: real, b: real, c: real)
    requires a > 0.0 && 0.0 < b <= c
    ensures a / c <= a / b
  {
    Quotient(a, b);
    Quotient(a, c);
    var p, q := a / c, a / b;
    assert p <= 0.0 ==> p * c <= 0.0;
    assert p * b <= p * c by {
      assert p * (c - b) >= 0.0;
      assert p * (c - b) == p * c - p * b;
    }
    CancelLeq(p, q, b);
  }

  lemma TimesMonotone(a: real, b: real, c: real)
    requires c > 0.0 && a <= b
    ensures c * a <= c * b
  {
    assert c * (b - a) >= 0.0;
  }

  lemma WideMonotone(v: real, w: real, sum: real, side: real)
    requires 0.0 < v <= w && sum > 0.0 && side > 0.0
    ensures Wide(v, sum, side) <= Wide(w, sum, side)
  {
    var squared := Times(side, side);
    TimesMonotone(v, w, squared);
    DivideMonotone(squared * v, squared * w, Times(sum, sum));
  }

  lemma ThinMonotone(v: real, w: real, sum: real, side: real)
    requires 0.0 < v <= w && sum > 0.0 && side > 0.0
    ensures Thin(w, sum, side) <= Thin(v, sum, side)
  {
    var squared := Times(side, side);
    TimesMonotone(v, w, squared);
    InverseMonotone(Times(sum, sum), Times(squared, v), Times(squared, w));
  }

  lemma PositiveQuotient(a: real, b: real)
    requires a > 0.0 && b > 0.0
    ensures a / b > 0.0 && a / b * b == a
  {
    Quotient(a, b);
    NotPositiveProduct(a / b, b);
  }

  lemma RatiosInRow(sum: real, side: real, value: real, thickness: real, length: real)
    requires sum > 0.0 && side > 0.0 && value > 0.0
    requires thickness == sum / side && length == Length(value, thickness, side)
    ensures thickness > 0.0 && length > 0.0
    ensures length / thickness == Wide(value, sum, side) && thickness / length == Thin(value, sum, side)
  {
    PositiveQuotient(sum, side);
    LengthPositive(value, thickness, side);
    TileRatios(value, sum, side, thickness, length);
  }

  lemma RowRatios(row: seq<real>, side: real, k: nat, thickness: real, length: real)
    requires Positive(row) && k < |row| && side > 0.0
    requires thickness == Thickness(row, side) && length == Length(row[k], thickness, side)
    ensures thickness > 0.0 && length > 0.0 && Sum(row) > 0.0
    ensures length / thickness == Wide(row[k], Sum(row), side) && thickness / length == Thin(row[k], Sum(row), side)
  {
    SumPositive(row);
    RatiosInRow(Sum(row), side, row[k], thickness, length);
  }

  lemma TileAspect(row: seq<real>, remaining: Rect, k: nat)
    requires Proper(remaining) && Side(remaining) > 0.0 && Positive(row) && k < |row|
    ensures var tile, side := RowTiles(row, remaining)[k], Side(remaining);
      && Sum(row) > 0.0 && Drawn(tile)
      && AspectRatio(tile) == Greater(Wide(row[k], Sum(row), side), Thin(row[k], Sum(row), side))
  {
    var side := Side(remaining);
    var thickness := Thickness(row, side);
    var length := Length(row[k], thickness, side);
    RowRatios(row, side, k, thickness, length);
    AspectOfTile(remaining, thickness, Offset(row[..k], thickness, side), length);
  }

  lemma AspectOfTile(remaining: Rect, thickness: real, offset: real, length: real)
    requires thickness > 0.0 && length > 0.0
    ensures Drawn(TileAt(remaining, thickness, offset, length))
    ensures AspectRatio(TileAt(remaining, thickness, offset, length)) == Greater(length / thickness, thickness / length)
  {
  }

  /** The measure the row choice rests on is the worst aspect ratio among the tiles of the row. */
  lemma WorstIsWorstAspect(row: seq<real>, remaining: Rect)
    requires Proper(remaining) && Side(remaining) > 0.0 && Positive(row) && row != []
    ensures var tiles := RowTiles(row, remaining);
      && (forall k :: 0 <= k < |tiles| ==> Drawn(tiles[k]) && AspectRatio(tiles[k]) <= Worst(row, Side(remaining)))
      && (exists k :: 0 <= k < |tiles| && Drawn(tiles[k]) && AspectRatio(tiles[k]) == Worst(row, Side(remaining)))
  {
    var side, tiles := Side(remaining), RowTiles(row, remaining);
    forall k | 0 <= k < |tiles| ensures Drawn(tiles[k]) && AspectRatio(tiles[k]) <= Worst(row, side) {
      AspectAtMostWorst(row, remaining, k);
    }
    assert Max(row) in row && Min(row) in row;
    var i :| 0 <= i < |row| && row[i] == Max(row);
    var j :| 0 <= j < |row| && row[j] == Min(row);
    AspectReachesWorst(row, remaining, i, j);
  }

  lemma AspectAtMostWorst(row: seq<real>, remaining: Rect, k: nat)
    requires Proper(remaining) && Side(remaining) > 0.0 && Positive(row) && k < |row|
    ensures var tile := RowTiles(row, remaining)[k];
      Drawn(tile) && AspectRatio(tile) <= Worst(row, Side(remaining))
  {
    TileAspect(row, remaining, k);
    MinPositive(row);
    assert row[k] in row;
    WideMonotone(row[k], Max(row), Sum(row), Side(remaining));
    ThinMonotone(Min(row), row[k], Sum(row), Side(remaining));
  }

  lemma AspectReachesWorst(row: seq<real>, remaining: Rect, i: nat, j: nat)
    requires Proper(remaining) && Side(remaining) > 0.0 && Positive(row) && i < |row| && j < |row|
    requires row[i] == Max(row) && row[j] == Min(row)
    ensures exists k ::
      0 <= k < |row| && Drawn(RowTiles(row, remaining)[k])
      && AspectRatio(RowTiles(row, remaining)[k]) == Worst(row, Side(remaining))
  {
    TileAspect(row, remaining, i);
    TileAspect(row, remaining, j);
    AspectAtMostWorst(row, remaining, i);
    AspectAtMostWorst(row, remaining, j);
    var k := if Wide(row[i], Sum(row), Side(remaining)) >= Thin(row[j], Sum(row), Side(remaining)) then i else j;
    assert AspectRatio(RowTiles(row, remaining)[k]) == Worst(row, Side(remaining));
  }

  // ----- why rows lie along the shorter side -----

  /** The tiles stand one after the other along the shorter side, from end to end, all of them
      equally thick; in a square they stand along its height. */
  ghost predicate SpansShorterSide(tiles: seq<Rect>, r: Rect) {
    tiles != [] && var last := tiles[|tiles| - 1];
    if r.width >= r.height then
      && tiles[0].y == r.y && last.y + last.height == r.y + r.height
      && (forall k :: 0 <= k < |tiles| ==> tiles[k].x == r.x && tiles[k].width == tiles[0].width)
      && (forall k :: 0 <= k < |tiles| - 1 ==> tiles[k + 1].y == tiles[k].y + tiles[k].height)
    else
      && tiles[0].x == r.x && last.x + last.width == r.x + r.width
      && (forall k :: 0 <= k < |tiles| ==> tiles[k].y == r.y && tiles[k].height == tiles[0].height)
      && (forall k :: 0 <= k < |tiles| - 1 ==> tiles[k + 1].x == tiles[k].x + tiles[k].width)
  }

  /** A row spans the shorter side of the space it is placed in. */
  lemma RowSpans(row: seq<real>, remaining: Rect)
    requires Proper(remaining) && Side(remaining) > 0.0 && Positive(row) && row != []
    ensures SpansShorterSide(RowTiles(row, remaining), remaining)
  {
    RowFills(row, Side(remaining));
    RowInLine(row, remaining, Thickness(row, Side(remaining)));
  }

  lemma RowFills(row: seq<real>, side: real)
    requires Positive(row) && row != [] && side > 0.0
    ensures Offset(row, Thickness(row, side), side) == side
  {
    var thickness := Thickness(row, side);
    SumPositive(row);
    PositiveQuotient(Sum(row), side);
    OffsetTimesThickness(row, thickness, side);
    CancelLeq(Offset(row, thickness, side), side, thickness);
    CancelLeq(side, Offset(row, thickness, side), thickness);
  }

  lemma RowInLine(row: seq<real>, remaining: Rect, thickness: real)
    requires row != [] && thickness == Thickness(row, Side(remaining))
    requires Offset(row, thickness, Side(remaining)) == Side(remaining)
    ensures SpansShorterSide(RowTiles(row, remaining), remaining)
  {
    var side, tiles := Side(remaining), RowTiles(row, remaining);
    assert row[..0] == [] && row[..|row|] == row;
    OffsetStep(row, |row| - 1, thickness, side);
    forall k | 0 <= k < |row|
      ensures tiles[k] == TileAt(remaining, thickness, Offset(row[..k], thickness, side),
                                 Length(row[k], thickness, side))
      ensures Offset(row[..k + 1], thickness, side)
        == Offset(row[..k], thickness, side) + Length(row[k], thickness, side)
    {
      OffsetStep(row, k, thickness, side);
    }
  }

  /** A single value is never flatter along the shorter side than along the longer one. */
  lemma ShorterSideIsBetter(value: real, r: Rect)
    requires Proper(r) && Side(r) > 0.0 && 0.0 < value <= Area(r)
    ensures Worst([value], Lesser(r.width, r.height)) == Worst([value], Side(r))
    ensures Worst([value], Side(r)) <= Worst([value], Greater(r.width, r.height))
  {
    var s, l := Side(r), Other(r);
    SingleRatios(value, s);
    SingleRatios(value, l);
    SquaresGrow(s, l, value);
    DivideMonotone(Times(s, s), Times(l, l), value);
    CrossLeq(value, Times(s, s), Times(l, l), value);
  }

  lemma SquaresGrow(s: real, l: real, value: real)
    requires 0.0 < s <= l && 0.0 < value <= l * s
    ensures Times(s, s) <= Times(l, l) && value * value <= Times(l, l) * Times(s, s)
  {
    TimesMonotone(s, l, s);
    TimesMonotone(s, l, l);
    var whole := Times(l, s);
    TimesMonotone(value, whole, value);
    TimesMonotone(value, whole, whole);
    assert whole * whole == Times(l, l) * Times(s, s);
  }

  /** The measure of one value alone. */
  lemma SingleRatios(value: real, side: real)
    requires value > 0.0 && side > 0.0
    ensures Worst([value], side) == Greater(Times(side, side) / value, value / Times(side, side))
  {
    var squared := Times(side, side);
    assert [value][..0] == [] && Sum([value]) == value;
    CrossDivide(squared * value, Times(value, value), squared, value);
    CrossDivide(Times(value, value), Times(squared, value), value, squared);
  }

  lemma CrossLeq(a: real, b: real, c: real, d: real)
    requires b > 0.0 && d > 0.0 && a * d <= c * b
    ensures a / b <= c / d
  {
    Quotient(a, b);
    Quotient(c, d);
    var bd := Times(b, d);
    assert a / b * bd == a / b * b * d == a * d;
    assert c / d * bd == c / d * d * b == c * b;
    CancelLeq(a / b, c / d, bd);
  }

  // ----- the loop -----

  lemma FitsWhole(values: seq<real>, area: Rect)
    requires Positive(values) && values != [] && Proper(area)
    ensures Sum(values) > 0.0 && Fits(Scaled(values, Area(area) / Sum(values)), area)
  {
    SumPositive(values);
    AreaSign(area);
    WholeSum(values, Area(area));
  }

  lemma WholeSum(values: seq<real>, whole: real)
    requires Positive(values) && Sum(values) > 0.0
    ensures Sum(Scaled(values, whole / Sum(values))) == whole
    ensures whole > 0.0 ==> Positive(Scaled(values, whole / Sum(values)))
    ensures whole == 0.0 ==> var scaled := Scaled(values, whole / Sum(values));
      forall i :: 0 <= i < |scaled| ==> scaled[i] == 0.0
  {
    var scale := whole / Sum(values);
    ScaleSign(whole, Sum(values));
    SumScaled(values, scale);
    if whole > 0.0 { ScaledPositive(values, scale); }
  }

  lemma ScaleSign(area: real, total: real)
    requires total > 0.0
    ensures total * (area / total) == area
    ensures (area > 0.0 ==> area / total > 0.0) && (area == 0.0 ==> area / total == 0.0)
  {
    var scale := area / total;
    Quotient(area, total);
    assert scale <= 0.0 ==> scale * total <= 0.0;
  }

  lemma AreaSign(r: Rect)
    requires Proper(r)
    ensures if Side(r) > 0.0 then Area(r) > 0.0 else Area(r) == 0.0
  {
    assert Area(r) == Times(r.width, r.height);
  }

  lemma ScaledPositive(values: seq<real>, scale: real)
    requires Positive(values) && scale > 0.0
    ensures Positive(Scaled(values, scale))
  {
    forall i | 0 <= i < |values| ensures values[i] * scale > 0.0 {
      assert values[i] * scale == Times(values[i], scale);
    }
  }

  /** Grows the next row one value at a time. */
  method FindRow(scaled: seq<real>, side: real) returns (n: nat)
    requires scaled != []
    ensures n == RowLength(scaled, side)
  {
    ghost var worsens := n => 0 < n < |scaled| && Worsens(scaled[..n + 1], scaled[..n], side);
    n := 1;
    while n < |scaled|
      invariant 0 < n <= |scaled|
      invariant Grow(worsens, n, |scaled|) == Grow(worsens, 1, |scaled|)
    {
      if Worsens(scaled[..n + 1], scaled[..n], side) {
        break;
      }
      n := n + 1;
    }
  }

  /** Writes the tiles of one row into the result. */
  method PlaceRow(row: seq<real>, remaining: Rect, result: array<Rect>, index: nat)
    requires index + |row| <= result.Length
    modifies result
    ensures result[..index + |row|] == old(result[..index]) + RowTiles(row, remaining)
  {
    ghost var before, tiles := result[..index], RowTiles(row, remaining);
    var side := Side(remaining);
    var thickness := Thickness(row, side);
    var offset := 0.0;
    for position := 0 to |row|
      invariant offset == Offset(row[..position], thickness, side)
      invariant result[..index + position] == before + tiles[..position]
    {
      var length := Length(row[position], thickness, side);
      OffsetStep(row, position, thickness, side);
      result[index + position] := TileAt(remaining, thickness, offset, length);
      offset := offset + length;
      assert result[..index + position + 1] == result[..index + position] + [result[index + position]];
      assert tiles[..position + 1] == tiles[..position] + [tiles[position]];
    }
    assert tiles[..|row|] == tiles;
  }

  /** Taking one row off the front of the layout. */
  lemma OneRow(scaled: seq<real>, index: nat, next: nat, remaining: Rect, row: seq<real>, left: Rect)
    returns (tail: seq<Rect>)
    requires index < next <= |scaled| && next == index + RowLength(scaled[index..], Side(remaining))
    requires row == scaled[index..next] && left == Rest(remaining, Thickness(row, Side(remaining)))
    ensures tail == LayoutFrom(scaled, next, left)
    ensures LayoutFrom(scaled, index, remaining) == RowTiles(row, remaining) + tail
  {
    var n := next - index;
    assert scaled[index..][..n] == row && scaled[index..][n..] == scaled[next..];
    tail := LayoutFrom(scaled, next, left);
  }

  lemma Appended(now: seq<Rect>, placed: seq<Rect>, row: seq<Rect>, before: seq<Rect>, after: seq<Rect>,
                 whole: seq<Rect>)
    requires now == placed + row && before == row + after && placed + before == whole
    ensures now + after == whole
  {
  }

  /** One turn of the loop: choose a row, place it, and return what space is left. */
  method NextRow(scaled: seq<real>, index: nat, remaining: Rect, result: array<Rect>, ghost before: seq<Rect>,
                 ghost whole: seq<Rect>)
    returns (next: nat, left: Rect, ghost after: seq<Rect>)
    requires index < |scaled| == result.Length
    requires before == LayoutFrom(scaled, index, remaining) && result[..index] + before == whole
    modifies result
    ensures index < next <= |scaled|
    ensures after == LayoutFrom(scaled, next, left) && result[..next] + after == whole
  {
    var side := Side(remaining);
    var n := FindRow(scaled[index..], side);
    next := index + n;
    var row := scaled[index..next];
    left := Rest(remaining, Thickness(row, side));
    after := OneRow(scaled, index, next, remaining, row, left);
    PlaceRow(row, remaining, result, index);
    Appended(result[..next], old(result[..index]), RowTiles(row, remaining), before, after, whole);
  }

  ghost function LayoutFrom(scaled: seq<real>, index: nat, space: Rect): seq<Rect>
    requires index <= |scaled|
  {
    Layout(scaled[index..], space)
  }

  /** The loop over rows: each takes its strip and leaves the rest of the space to the others. */
  method FillRows(scaled: seq<real>, area: Rect) returns (tiles: seq<Rect>)
    ensures tiles == Layout(scaled, area)
  {
    var result := new Rect[|scaled|];
    var remaining := area;
    var index := 0;
    ghost var whole, tail := Layout(scaled, area), Layout(scaled, area);
    assert scaled[0..] == scaled;
    while index < |scaled|
      invariant 0 <= index <= |scaled|
      invariant tail == LayoutFrom(scaled, index, remaining)
      invariant result[..index] + tail == whole
    {
      index, remaining, tail := NextRow(scaled, index, remaining, result, tail, whole);
    }
    assert scaled[index..] == [] && tail == [];
    assert result[..index] == result[..] && result[..index] + tail == result[..];
    tiles := result[..];
  }

  method Squarify(values: seq<real>, area: Rect) returns (tiles: seq<Rect>)
    requires Positive(values) && Proper(area)
    ensures values == [] ==> tiles == []
    ensures values != [] ==>
      && Sum(values) > 0.0
      && Tiled(Scaled(values, Area(area) / Sum(values)), tiles, area)
      && Fits(Scaled(values, Area(area) / Sum(values)), area)
      && tiles == Layout(Scaled(values, Area(area) / Sum(values)), area)
      // The first row spans the shorter side.
      && (area.width > 0.0 && area.height > 0.0 ==>
            var n := RowLength(Scaled(values, Area(area) / Sum(values)), Lesser(area.width, area.height));
            SpansShorterSide(tiles[..n], area))
  {
    var total := Sum(values);
    if total <= 0.0 || values == [] {
      SumPositive(values);
      return [];
    }
    FitsWhole(values, area);
    var scaled := Scaled(values, Area(area) / total);
    tiles := FillRows(scaled, area);
    LayoutTiled(scaled, area);
    if area.width > 0.0 && area.height > 0.0 {
      FirstRowSpans(scaled, area);
    }
  }

  lemma FirstRowSpans(scaled: seq<real>, area: Rect)
    requires scaled != [] && Positive(scaled) && Proper(area) && area.width > 0.0 && area.height > 0.0
    ensures SpansShorterSide(Layout(scaled, area)[..RowLength(scaled, Lesser(area.width, area.height))], area)
  {
    var n := RowLength(scaled, Side(area));
    RowSpans(scaled[..n], area);
    assert Layout(scaled, area)[..n] == RowTiles(scaled[..n], area);
  }

  ghost function Areas(tiles: seq<Rect>): seq<real> {
    seq(|tiles|, i requires 0 <= i < |tiles| => Area(tiles[i]))
  }

  /** The tile areas add up to the whole area, whatever the values. */
  lemma AreasSumToWhole(values: seq<real>, area: Rect, tiles: seq<Rect>)
    requires Positive(values) && values != [] && Proper(area)
    requires Sum(values) > 0.0 && Tiled(Scaled(values, Area(area) / Sum(values)), tiles, area)
    ensures Sum(Areas(tiles)) == Area(area)
  {
    WholeSum(values, Area(area));
    assert Areas(tiles) == Scaled(values, Area(area) / Sum(values));
  }
}
