/** The water ring around a spawn: the search clamped to the ring's own square finds the
    same tiles, in the same order, as a search of the whole area. */
module WaterBorder {
  import opened Extrema

  datatype Point = Point(x: real, y: real)

  datatype Area = Area(left: real, top: real, right: real, bottom: real)

  /** The ring itself: its centre, radius and modifier. */
  datatype Ring = Ring(center: Point, radius: real, modifier: real)

  function Ceiling(r: real): (n: int)
    ensures n as real - 1.0 < r <= n as real
  {
    -((-r).Floor)
  }

  function Square(r: real): real {
    r * r
  }

  /** The coordinates a unit-step loop visits. */
  function Axis(first: real, last: real): (coordinates: seq<real>) {
    var count := (last - first).Floor + 1;
    seq(if count < 0 then 0 else count, i => first + i as real)
  }

  predicate InRing(p: Point, ring: Ring) {
    var inner := Square(ring.radius);
    inner < (Square(ring.center.x - p.x) + Square(ring.center.y - p.y)).Floor as real < inner + ring.modifier
  }

  function Column(x: real, ys: seq<real>, ring: Ring): (tiles: seq<Point>) {
    if ys == [] then []
    else (if InRing(Point(x, ys[0]), ring) then [Point(x, ys[0])] else []) + Column(x, ys[1..], ring)
  }

  function Scan(xs: seq<real>, ys: seq<real>, ring: Ring): (tiles: seq<Point>) {
    if xs == [] then [] else Column(xs[0], ys, ring) + Scan(xs[1..], ys, ring)
  }

  /** Every tile of the area is looked at. */
  function FullScan(area: Area, ring: Ring): seq<Point> {
    Scan(Axis(area.left, area.right), Axis(area.top, area.bottom), ring)
  }

  /** The tile `i` columns and `j` rows into the area, if the area reaches that far. */
  ghost predicate TileAt(area: Area, p: Point, i: nat, j: nat) {
    p == Point(area.left + i as real, area.top + j as real) && p.x <= area.right && p.y <= area.bottom
  }

  /** Strictly between the inner and the outer circle, the squared distance rounded down. */
  ghost predicate Between(p: Point, ring: Ring) {
    var dx, dy := ring.center.x - p.x, ring.center.y - p.y;
    && (dx * dx + dy * dy).Floor as real > ring.radius * ring.radius
    && (dx * dx + dy * dy).Floor as real < ring.radius * ring.radius + ring.modifier
  }

  lemma BetweenIsInRing(p: Point, ring: Ring)
    ensures InRing(p, ring) <==> Between(p, ring)
  {
  }

  lemma {:induction false} ColumnExactly(x: real, ys: seq<real>, ring: Ring, p: Point)
    ensures p in Column(x, ys, ring) <==> p.x == x && p.y in ys && InRing(p, ring)
  {
    if ys != [] {
      ColumnExactly(x, ys[1..], ring, p);
      assert ys == [ys[0]] + ys[1..];
    }
  }

  lemma {:induction false} ScanExactly(xs: seq<real>, ys: seq<real>, ring: Ring, p: Point)
    ensures p in Scan(xs, ys, ring) <==> p.x in xs && p.y in ys && InRing(p, ring)
  {
    if xs != [] {
      ScanExactly(xs[1..], ys, ring, p);
      ColumnExactly(xs[0], ys, ring, p);
      assert xs == [xs[0]] + xs[1..];
    }
  }

  lemma AxisExactly(first: real, last: real, v: real)
    ensures v in Axis(first, last) <==> exists i: nat :: v == Stepped(first, i) && v <= last
  {
    var axis := Axis(first, last);
    if v in axis {
      var i: nat :| i < |axis| && axis[i] == v;
      assert v == Stepped(first, i);
    }
    if i: nat :| v == Stepped(first, i) && v <= last {
      assert (last - first).Floor >= i;
      assert axis[i] == v;
    }
  }

  function Stepped(first: real, i: nat): real {
    first + i as real
  }

  /** What is found: every tile of the area, at unit steps from its corner, that lies between
      the circles, and nothing else. */
  lemma FullScanExactly(area: Area, ring: Ring, p: Point)
    ensures p in FullScan(area, ring) <==> (exists i: nat, j: nat :: TileAt(area, p, i, j)) && Between(p, ring)
  {
    ScanExactly(Axis(area.left, area.right), Axis(area.top, area.bottom), ring, p);
    AxisExactly(area.left, area.right, p.x);
    AxisExactly(area.top, area.bottom, p.y);
    BetweenIsInRing(p, ring);
    if i: nat, j: nat :| TileAt(area, p, i, j) {
      assert p.x == Stepped(area.left, i) && p.y == Stepped(area.top, j);
    }
    if p.x in Axis(area.left, area.right) && p.y in Axis(area.top, area.bottom) {
      var i: nat :| p.x == Stepped(area.left, i) && p.x <= area.right;
      var j: nat :| p.y == Stepped(area.top, j) && p.y <= area.bottom;
      assert TileAt(area, p, i, j);
    }
  }

  /** Tiles come column by column from the left, each column from the top. */
  ghost predicate ColumnByColumn(tiles: seq<Point>) {
    forall a, b | 0 <= a < b < |tiles| :: tiles[a].x < tiles[b].x || (tiles[a].x == tiles[b].x && tiles[a].y < tiles[b].y)
  }

  ghost predicate Rising(coordinates: seq<real>) {
    forall a, b | 0 <= a < b < |coordinates| :: coordinates[a] < coordinates[b]
  }

  lemma {:induction false} ColumnRises(x: real, ys: seq<real>, ring: Ring)
    requires Rising(ys)
    ensures ColumnByColumn(Column(x, ys, ring))
  {
    if ys != [] {
      ColumnRises(x, ys[1..], ring);
      var rest := Column(x, ys[1..], ring);
      forall p | p in rest ensures p.x == x && ys[0] < p.y {
        ColumnExactly(x, ys[1..], ring, p);
        var i :| 0 <= i < |ys[1..]| && ys[1..][i] == p.y;
        assert ys[i + 1] == p.y;
      }
      assert forall i | 0 <= i < |rest| :: rest[i] in rest;
    }
  }

  lemma {:induction false} ScanRises(xs: seq<real>, ys: seq<real>, ring: Ring)
    requires Rising(xs) && Rising(ys)
    ensures ColumnByColumn(Scan(xs, ys, ring))
  {
    if xs != [] {
      ScanRises(xs[1..], ys, ring);
      ColumnRises(xs[0], ys, ring);
      var column, rest := Column(xs[0], ys, ring), Scan(xs[1..], ys, ring);
      forall p | p in column ensures p.x == xs[0] {
        ColumnExactly(xs[0], ys, ring, p);
      }
      forall p | p in rest ensures xs[0] < p.x {
        ScanExactly(xs[1..], ys, ring, p);
        var i :| 0 <= i < |xs[1..]| && xs[1..][i] == p.x;
        assert xs[i + 1] == p.x;
      }
      assert forall i | 0 <= i < |rest| :: rest[i] in rest;
      assert forall i | 0 <= i < |column| :: column[i] in column;
    }
  }

  // --------------------------------------------------------------------------- the radius

  /** `n` is the ceiling of the square root of `v`. */
  predicate IsCeilingRoot(n: nat, v: real) {
    v <= Square(n as real) && (n > 0 ==> Square(n as real - 1.0) < v)
  }

  function RootFrom(n: nat, v: real): (root: nat)
    requires n > 0 ==> Square(n as real - 1.0) < v
    ensures IsCeilingRoot(root, v)
    decreases v.Floor + 2 - n
  {
    if v <= Square(n as real) then n
    else
      RootIsSmall(n, v);
      RootFrom(n + 1, v)
  }

  lemma RootIsSmall(n: nat, v: real)
    requires Square(n as real) < v
    ensures n <= v.Floor + 1
  {
    if n > 0 {
      assert Square(n as real) == n as real * n as real >= n as real;
    }
  }

  /** `math.ceil(math.sqrt(v))`, for any `v` above zero. */
  function CeilingRoot(v: real): (root: nat)
    ensures IsCeilingRoot(root, v)
  {
    RootFrom(0, v)
  }

  lemma SquareGrows(a: real, b: real)
    requires 0.0 <= a <= b
    ensures Square(a) <= Square(b)
  {
    assert a * a <= a * b <= b * b;
  }

  /** Nothing else is a ceiling of the root. */
  lemma CeilingRootIsUnique(m: nat, n: nat, v: real)
    requires IsCeilingRoot(m, v) && IsCeilingRoot(n, v)
    ensures m == n
  {
    if m < n {
      SquareGrows(m as real, n as real - 1.0);
    } else if n < m {
      SquareGrows(n as real, m as real - 1.0);
    }
  }

  // ---------------------------------------------------------------------------- the clamp

  /** `clamp_axis`. */
  function ClampedFirst(first: real, minimum: real): real {
    first + Max(0, Ceiling(minimum - first)) as real
  }

  function ClampedLast(first: real, last: real, maximum: real): real {
    first + Lesser(last - first, (maximum - first).Floor as real)
  }

  function ClampedArea(area: Area, ring: Ring, outer: nat): Area {
    var reach := outer as real;
    Area(ClampedFirst(area.left, ring.center.x - reach), ClampedFirst(area.top, ring.center.y - reach),
         ClampedLast(area.left, area.right, ring.center.x + reach), ClampedLast(area.top, area.bottom, ring.center.y + reach))
  }

  /** The coordinates of a list within two bounds, in order. */
  function Within(coordinates: seq<real>, minimum: real, maximum: real): seq<real> {
    if coordinates == [] then []
    else (if minimum <= coordinates[0] <= maximum then [coordinates[0]] else []) + Within(coordinates[1..], minimum, maximum)
  }

  lemma AxisUnfolds(first: real, last: real)
    ensures first <= last ==> Axis(first, last) == [first] + Axis(first + 1.0, last)
    ensures first > last ==> Axis(first, last) == []
  {
    assert (last - (first + 1.0)).Floor == (last - first).Floor - 1;
  }

  lemma {:induction false} WithinBeyond(first: real, last: real, minimum: real, maximum: real)
    requires maximum < first
    ensures Within(Axis(first, last), minimum, maximum) == []
    decreases (last - first).Floor + 1
  {
    AxisUnfolds(first, last);
    if first <= last {
      assert Axis(first, last)[1..] == Axis(first + 1.0, last);
      WithinBeyond(first + 1.0, last, minimum, maximum);
    }
  }

  /** Clamping an axis keeps exactly its coordinates within the bounds, in order. */
  lemma {:induction false} ClampIsFilter(first: real, last: real, minimum: real, maximum: real)
    ensures Axis(ClampedFirst(first, minimum), ClampedLast(first, last, maximum)) == Within(Axis(first, last), minimum, maximum)
    decreases (last - first).Floor + 1
  {
    var low, high := ClampedFirst(first, minimum), ClampedLast(first, last, maximum);
    AxisUnfolds(first, last);
    AxisUnfolds(low, high);
    if first > last {
      assert low > high;
    } else if first > maximum {
      WithinBeyond(first, last, minimum, maximum);
      assert low > high;
    } else {
      ClampIsFilter(first + 1.0, last, minimum, maximum);
      assert Axis(first, last)[1..] == Axis(first + 1.0, last);
      ClampMoves(first, last, minimum, maximum);
    }
  }

  /** Where the clamp of an axis lies once its first coordinate is dropped. */
  lemma ClampMoves(first: real, last: real, minimum: real, maximum: real)
    requires first <= last && first <= maximum
    ensures minimum <= first ==> ClampedFirst(first, minimum) == first && first <= ClampedLast(first, last, maximum)
                                 && ClampedFirst(first + 1.0, minimum) == first + 1.0
    ensures minimum > first ==> ClampedFirst(first + 1.0, minimum) == ClampedFirst(first, minimum)
    ensures ClampedLast(first + 1.0, last, maximum) == ClampedLast(first, last, maximum)
  {
    assert (maximum - (first + 1.0)).Floor == (maximum - first).Floor - 1;
    assert Ceiling(minimum - (first + 1.0)) == Ceiling(minimum - first) - 1;
  }

  /** A clamped axis is at most two outer radii and one tile long. */
  lemma ClampBoundsWork(first: real, last: real, center: real, outer: nat)
    ensures |Axis(ClampedFirst(first, center - outer as real), ClampedLast(first, last, center + outer as real))| <= 2 * outer + 1
  {
  }

  // -------------------------------------------------------------------------- equivalence

  predicate Near(a: real, center: real, outer: nat) {
    center - outer as real <= a <= center + outer as real
  }

  /** A tile further off than the outer radius along one axis is not in the ring. */
  lemma FarIsOutside(p: Point, ring: Ring, outer: nat)
    requires Square(ring.radius) + ring.modifier <= Square(outer as real)
    requires !Near(p.x, ring.center.x, outer) || !Near(p.y, ring.center.y, outer)
    ensures !InRing(p, ring)
  {
    var dx, dy := ring.center.x - p.x, ring.center.y - p.y;
    var reach := outer as real;
    if !Near(p.x, ring.center.x, outer) {
      SquareOf(dx);
      SquareGrows(reach, if dx < 0.0 then -dx else dx);
    } else {
      SquareOf(dy);
      SquareGrows(reach, if dy < 0.0 then -dy else dy);
    }
    SquareOf(dx);
    SquareOf(dy);
    FloorAtLeast(Square(dx) + Square(dy), outer * outer);
    assert Square(reach) == (outer * outer) as real;
  }

  lemma SquareOf(r: real)
    ensures Square(r) == Square(-r) && Square(r) >= 0.0
  {
  }

  lemma FloorAtLeast(r: real, n: int)
    requires n as real <= r
    ensures n <= r.Floor
  {
  }

  /** Outside these bounds, along either axis, nothing is in the ring. */
  ghost predicate Encloses(ring: Ring, low: Point, high: Point) {
    && (forall x: real, y: real | !(low.x <= x <= high.x) :: !InRing(Point(x, y), ring))
    && (forall x: real, y: real | !(low.y <= y <= high.y) :: !InRing(Point(x, y), ring))
  }

  lemma OuterSquareEncloses(ring: Ring, outer: nat)
    requires Square(ring.radius) + ring.modifier <= Square(outer as real)
    ensures Encloses(ring, Point(ring.center.x - outer as real, ring.center.y - outer as real),
                     Point(ring.center.x + outer as real, ring.center.y + outer as real))
  {
    forall x: real, y: real | !Near(x, ring.center.x, outer) || !Near(y, ring.center.y, outer)
      ensures !InRing(Point(x, y), ring)
    {
      FarIsOutside(Point(x, y), ring, outer);
    }
  }

  lemma {:induction false} ColumnKeeps(x: real, ys: seq<real>, ring: Ring, low: Point, high: Point)
    requires Encloses(ring, low, high)
    ensures Column(x, Within(ys, low.y, high.y), ring) == Column(x, ys, ring)
    ensures !(low.x <= x <= high.x) ==> Column(x, ys, ring) == []
  {
    if ys != [] {
      ColumnKeeps(x, ys[1..], ring, low, high);
      var kept := Within(ys[1..], low.y, high.y);
      if low.y <= ys[0] <= high.y {
        assert Within(ys, low.y, high.y)[1..] == kept;
      } else {
        assert Within(ys, low.y, high.y) == kept;
      }
    }
  }

  lemma {:induction false} ScanKeeps(xs: seq<real>, ys: seq<real>, ring: Ring, low: Point, high: Point)
    requires Encloses(ring, low, high)
    ensures Scan(Within(xs, low.x, high.x), Within(ys, low.y, high.y), ring) == Scan(xs, ys, ring)
  {
    if xs != [] {
      ScanKeeps(xs[1..], ys, ring, low, high);
      ColumnKeeps(xs[0], ys, ring, low, high);
      var kept := Within(xs[1..], low.x, high.x);
      if low.x <= xs[0] <= high.x {
        assert Within(xs, low.x, high.x)[1..] == kept;
      } else {
        assert Within(xs, low.x, high.x) == kept;
      }
    }
  }

  /** For every centre, area, radius and modifier, the clamped area yields exactly the
      tiles of the full one, in the same order. */
  lemma ClampedScanIsFullScan(area: Area, ring: Ring, outer: nat)
    requires IsCeilingRoot(outer, Square(ring.radius) + ring.modifier)
    ensures FullScan(ClampedArea(area, ring, outer), ring) == FullScan(area, ring)
  {
    var reach := outer as real;
    var low, high := Point(ring.center.x - reach, ring.center.y - reach), Point(ring.center.x + reach, ring.center.y + reach);
    OuterSquareEncloses(ring, outer);
    var xs, ys := Axis(area.left, area.right), Axis(area.top, area.bottom);
    ScanKeeps(xs, ys, ring, low, high);
    ClampedAxes(area, ring, outer, low, high);
  }

  lemma ClampedAxes(area: Area, ring: Ring, outer: nat, low: Point, high: Point)
    requires low == Point(ring.center.x - outer as real, ring.center.y - outer as real)
    requires high == Point(ring.center.x + outer as real, ring.center.y + outer as real)
    ensures var clamped := ClampedArea(area, ring, outer);
            && Axis(clamped.left, clamped.right) == Within(Axis(area.left, area.right), low.x, high.x)
            && Axis(clamped.top, clamped.bottom) == Within(Axis(area.top, area.bottom), low.y, high.y)
  {
    ClampIsFilter(area.left, area.right, low.x, high.x);
    ClampIsFilter(area.top, area.bottom, low.y, high.y);
  }

  /** A ring whose outer radius squared is not positive has no tiles. */
  lemma {:induction false} EmptyRing(xs: seq<real>, ys: seq<real>, ring: Ring)
    requires Square(ring.radius) + ring.modifier <= 0.0
    ensures Scan(xs, ys, ring) == []
  {
    if xs != [] {
      EmptyColumn(xs[0], ys, ring);
      EmptyRing(xs[1..], ys, ring);
    }
  }

  lemma {:induction false} EmptyColumn(x: real, ys: seq<real>, ring: Ring)
    requires Square(ring.radius) + ring.modifier <= 0.0
    ensures Column(x, ys, ring) == []
  {
    if ys != [] {
      SquareOf(ring.center.x - x);
      SquareOf(ring.center.y - ys[0]);
      EmptyColumn(x, ys[1..], ring);
    }
  }

  lemma ColumnUnfolds(x: real, y: real, bottom: real, ring: Ring)
    ensures y <= bottom ==>
              Column(x, Axis(y, bottom), ring)
              == (if InRing(Point(x, y), ring) then [Point(x, y)] else []) + Column(x, Axis(y + 1.0, bottom), ring)
    ensures y > bottom ==> Column(x, Axis(y, bottom), ring) == []
  {
    AxisUnfolds(y, bottom);
    if y <= bottom {
      assert Axis(y, bottom)[1..] == Axis(y + 1.0, bottom);
    }
  }

  lemma ScanUnfolds(x: real, right: real, ys: seq<real>, ring: Ring)
    ensures x <= right ==> Scan(Axis(x, right), ys, ring) == Column(x, ys, ring) + Scan(Axis(x + 1.0, right), ys, ring)
    ensures x > right ==> Scan(Axis(x, right), ys, ring) == []
  {
    AxisUnfolds(x, right);
    if x <= right {
      assert Axis(x, right)[1..] == Axis(x + 1.0, right);
    }
  }

  /** The inner loop: one column of the clamped area. */
  method FindInColumn(x: real, top: real, bottom: real, ring: Ring, before: seq<Point>) returns (tiles: seq<Point>)
    ensures tiles == before + Column(x, Axis(top, bottom), ring)
  {
    tiles := before;
    var y := top;
    while y <= bottom
      invariant tiles + Column(x, Axis(y, bottom), ring) == before + Column(x, Axis(top, bottom), ring)
      decreases (bottom - y).Floor + 1
    {
      ColumnUnfolds(x, y, bottom, ring);
      ghost var rest := Column(x, Axis(y + 1.0, bottom), ring);
      assert (tiles + [Point(x, y)]) + rest == tiles + ([Point(x, y)] + rest) && [] + rest == rest;
      if InRing(Point(x, y), ring) {
        tiles := tiles + [Point(x, y)];
      }
      y := y + 1.0;
    }
    ColumnUnfolds(x, y, bottom, ring);
  }

  lemma Regroup(a: seq<Point>, b: seq<Point>, c: seq<Point>)
    ensures (a + b) + c == a + (b + c)
  {
  }

  /** The two loops over an area, column by column. */
  method ScanArea(area: Area, ring: Ring) returns (tiles: seq<Point>)
    ensures tiles == FullScan(area, ring)
  {
    tiles := [];
    ghost var ys := Axis(area.top, area.bottom);
    var x := area.left;
    while x <= area.right
      invariant tiles + Scan(Axis(x, area.right), ys, ring) == FullScan(area, ring)
      decreases (area.right - x).Floor + 1
    {
      ScanUnfolds(x, area.right, ys, ring);
      ghost var rest := Scan(Axis(x + 1.0, area.right), ys, ring);
      Regroup(tiles, Column(x, ys, ring), rest);
      tiles := FindInColumn(x, area.top, area.bottom, ring, tiles);
      x := x + 1.0;
    }
    ScanUnfolds(x, area.right, ys, ring);
  }

  /** The runtime looks only at the clamped area, yet finds what a scan of the whole area
      would, and nothing at all when the outer radius squared is not positive. */
  method FindWater(area: Area, ring: Ring) returns (tiles: seq<Point>)
    ensures tiles == FullScan(area, ring)
    ensures forall p :: p in tiles <==> (exists i: nat, j: nat :: TileAt(area, p, i, j)) && Between(p, ring)
    ensures ColumnByColumn(tiles)
  {
    ScanRises(Axis(area.left, area.right), Axis(area.top, area.bottom), ring);
    forall p ensures p in FullScan(area, ring) <==> (exists i: nat, j: nat :: TileAt(area, p, i, j)) && Between(p, ring) {
      FullScanExactly(area, ring, p);
    }
    var outerSquared := ring.radius * ring.radius + ring.modifier;
    if outerSquared <= 0.0 {
      EmptyRing(Axis(area.left, area.right), Axis(area.top, area.bottom), ring);
      return [];
    }
    var outer := CeilingRoot(outerSquared);
    ClampedScanIsFullScan(area, ring, outer);
    tiles := ScanArea(ClampedArea(area, ring, outer), ring);
  }
}
