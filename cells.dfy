/**
 * The scans both map editors run over one layer's list of points, and the
 * geometry of the rectangle gesture: the bounding box of two corners and the
 * floor tiles it adds.
 *
 * A layer is an ordered list; the scans look for the first point whose
 * coordinates are a given cell. The functions here specify; the methods are
 * the source's loops and are proved to compute them.
 */
module Cells {
  import opened Wrappers
  import opened Points

  /** Some point of the layer sits at `c`. */
  predicate Occupied(points: seq<Point>, c: Coordinates) {
    exists i :: 0 <= i < |points| && points[i].coordinates == c
  }

  /** No two points of the layer share a cell. */
  predicate Distinct(points: seq<Point>) {
    forall i, j :: 0 <= i < j < |points| ==> points[i].coordinates != points[j].coordinates
  }

  /** No cell holds a point of both lists. */
  predicate Disjoint(a: seq<Point>, b: seq<Point>) {
    forall i, j :: 0 <= i < |a| && 0 <= j < |b| ==> a[i].coordinates != b[j].coordinates
  }

  /** The index of the first point at `c`, or -1 when there is none. */
  function FirstAt(points: seq<Point>, c: Coordinates): (i: int)
    ensures -1 <= i < |points|
    ensures i == -1 <==> !Occupied(points, c)
    ensures 0 <= i ==> points[i].coordinates == c
    ensures forall j :: 0 <= j < i ==> points[j].coordinates != c
  {
    if |points| == 0 then -1
    else if points[0].coordinates == c then 0
    else
      var k := FirstAt(points[1..], c);
      assert forall j :: 1 <= j < |points| ==> points[j] == points[1..][j - 1];
      if k == -1 then -1 else k + 1
  }

  /** How many points of the layer sit at `c`. */
  function CountAt(points: seq<Point>, c: Coordinates): nat {
    if |points| == 0 then 0
    else CountAt(points[..|points| - 1], c) + (if points[|points| - 1].coordinates == c then 1 else 0)
  }

  lemma {:induction false} CountAtZero(points: seq<Point>, c: Coordinates)
    requires !Occupied(points, c)
    ensures CountAt(points, c) == 0
  {
    if |points| > 0 {
      var init := points[..|points| - 1];
      assert !Occupied(init, c) by {
        assert forall j :: 0 <= j < |init| ==> init[j] == points[j];
      }
      CountAtZero(init, c);
    }
  }

  /** In a layer without duplicates a cell holds exactly one point or none. */
  lemma {:induction false} DistinctCountAt(points: seq<Point>, c: Coordinates)
    requires Distinct(points)
    ensures CountAt(points, c) == if Occupied(points, c) then 1 else 0
  {
    if |points| > 0 {
      var init, last := points[..|points| - 1], points[|points| - 1];
      assert forall j :: 0 <= j < |init| ==> init[j] == points[j];
      assert Distinct(init);
      DistinctCountAt(init, c);
      if last.coordinates == c {
        assert !Occupied(init, c);
      } else if Occupied(points, c) {
        var j :| 0 <= j < |points| && points[j].coordinates == c;
        assert init[j].coordinates == c;
      }
    }
  }

  lemma OccupiedConcat(a: seq<Point>, b: seq<Point>, c: Coordinates)
    ensures Occupied(a + b, c) <==> Occupied(a, c) || Occupied(b, c)
  {
    if Occupied(a + b, c) {
      var i :| 0 <= i < |a + b| && (a + b)[i].coordinates == c;
      if i >= |a| {
        assert b[i - |a|].coordinates == c;
      }
    }
    if Occupied(a, c) {
      var i :| 0 <= i < |a| && a[i].coordinates == c;
      assert (a + b)[i].coordinates == c;
    }
    if Occupied(b, c) {
      var j :| 0 <= j < |b| && b[j].coordinates == c;
      assert (a + b)[|a| + j].coordinates == c;
    }
  }

  lemma DistinctConcat(a: seq<Point>, b: seq<Point>)
    requires Distinct(a) && Distinct(b) && Disjoint(a, b)
    ensures Distinct(a + b)
  {
    forall i, j | 0 <= i < j < |a + b|
      ensures (a + b)[i].coordinates != (a + b)[j].coordinates
    {
      if j < |a| {
      } else if i < |a| {
        assert (a + b)[j] == b[j - |a|];
      } else {
        assert (a + b)[i] == b[i - |a|] && (a + b)[j] == b[j - |a|];
      }
    }
  }

  /** `cellDoesNotExist`: scans the layer and answers whether no point sits at `c`. */
  method CellDoesNotExist(points: seq<Point>, c: Coordinates) returns (absent: bool)
    ensures absent <==> !Occupied(points, c)
  {
    var i := 0;
    while i < |points|
      invariant 0 <= i <= |points|
      invariant forall j :: 0 <= j < i ==> points[j].coordinates != c
    {
      if points[i].coordinates == c {
        return false;
      }
      i := i + 1;
    }
    return true;
  }

  /** `findCell`: the first point at `c`, or nothing. */
  method FindCell(points: seq<Point>, c: Coordinates) returns (cell: Option<Point>)
    ensures cell.None? <==> !Occupied(points, c)
    ensures cell.Some? ==> cell == Some(points[FirstAt(points, c)])
  {
    var i := 0;
    while i < |points|
      invariant 0 <= i <= |points|
      invariant forall j :: 0 <= j < i ==> points[j].coordinates != c
    {
      if points[i].coordinates == c {
        return Some(points[i]);
      }
      i := i + 1;
    }
    return None;
  }

  /** The index loop the in-place updates run: the position of the first point at `c`, or -1. */
  method IndexOfCell(points: seq<Point>, c: Coordinates) returns (index: int)
    ensures index == FirstAt(points, c)
  {
    index := 0;
    while index < |points|
      invariant 0 <= index <= |points|
      invariant forall j :: 0 <= j < index ==> points[j].coordinates != c
    {
      if points[index].coordinates == c {
        return;
      }
      index := index + 1;
    }
    index := -1;
  }

  /** The layer with its first point at `c` removed; unchanged when there is none. */
  function WithoutFirst(points: seq<Point>, c: Coordinates): (rest: seq<Point>)
    ensures Occupied(points, c) ==> |rest| == |points| - 1
    ensures !Occupied(points, c) ==> rest == points
  {
    var i := FirstAt(points, c);
    if i < 0 then points else points[..i] + points[i + 1..]
  }

  /**
   * Removing the first point at `c` keeps every other point, in order, and
   * takes away one copy of the removed point; in a layer without duplicates
   * the cell is then free and no duplicate appears.
   */
  lemma WithoutFirstKeepsOthers(points: seq<Point>, c: Coordinates)
    requires Occupied(points, c)
    ensures var i := FirstAt(points, c);
      && points[i].coordinates == c
      && WithoutFirst(points, c) == points[..i] + points[i + 1..]
      && multiset(WithoutFirst(points, c)) + multiset{points[i]} == multiset(points)
    ensures Distinct(points) ==> Distinct(WithoutFirst(points, c)) && !Occupied(WithoutFirst(points, c), c)
  {
    var i := FirstAt(points, c);
    assert points == points[..i] + [points[i]] + points[i + 1..];
    if Distinct(points) {
      WithoutFirstDistinct(points, c);
    }
  }

  lemma WithoutFirstDistinct(points: seq<Point>, c: Coordinates)
    requires Occupied(points, c) && Distinct(points)
    ensures Distinct(WithoutFirst(points, c)) && !Occupied(WithoutFirst(points, c), c)
  {
    var i := FirstAt(points, c);
    var rest := WithoutFirst(points, c);
    assert rest == points[..i] + points[i + 1..];
    forall j | 0 <= j < |rest| ensures rest[j] == points[if j < i then j else j + 1] {
    }
    forall j, k | 0 <= j < k < |rest| ensures rest[j].coordinates != rest[k].coordinates {
      assert rest[j] == points[if j < i then j else j + 1];
      assert rest[k] == points[if k < i then k else k + 1];
    }
    forall j | 0 <= j < |rest| ensures rest[j].coordinates != c {
      var k := if j < i then j else j + 1;
      assert rest[j] == points[k];
      if k > i {
        assert points[i].coordinates != points[k].coordinates;
      }
    }
  }

  /** `eraseCell`: splices out the first point at `c`. */
  method EraseCell(points: seq<Point>, c: Coordinates) returns (rest: seq<Point>)
    ensures rest == WithoutFirst(points, c)
  {
    rest := points;
    var i := 0;
    while i < |points|
      invariant 0 <= i <= |points|
      invariant forall j :: 0 <= j < i ==> points[j].coordinates != c
    {
      if points[i].coordinates == c {
        rest := points[..i] + points[i + 1..];
        break;
      }
      i := i + 1;
    }
  }

  /** The layer after `addSingleCell`: `cell` is appended only when its cell is free. */
  function Placed(points: seq<Point>, cell: Point): (r: seq<Point>)
    ensures Occupied(points, cell.coordinates) ==> r == points
    ensures !Occupied(points, cell.coordinates) ==> r == points + [cell]
  {
    if Occupied(points, cell.coordinates) then points else points + [cell]
  }

  /**
   * Placing never overwrites and never duplicates: the cell is occupied
   * afterwards, a second identical placement changes nothing, and in a layer
   * without duplicates the cell then holds exactly one point.
   */
  lemma PlacedOnce(points: seq<Point>, cell: Point)
    ensures Occupied(Placed(points, cell), cell.coordinates)
    ensures Placed(Placed(points, cell), cell) == Placed(points, cell)
    ensures Distinct(points) ==> Distinct(Placed(points, cell))
    ensures Distinct(points) ==> CountAt(Placed(Placed(points, cell), cell), cell.coordinates) == 1
  {
    var once := Placed(points, cell);
    if !Occupied(points, cell.coordinates) {
      assert once[|points|].coordinates == cell.coordinates;
      if Distinct(points) {
        DistinctConcat(points, [cell]);
      }
    }
    assert Occupied(once, cell.coordinates);
    if Distinct(points) {
      DistinctCountAt(once, cell.coordinates);
    }
  }

  // ---------------------------------------------------------------------
  // The rectangle gesture

  /** A rectangle of cells: top-left corner and size. */
  datatype Box = Box(x: int, y: int, width: nat, height: nat)

  predicate InBox(b: Box, c: Coordinates) {
    b.x <= c.x < b.x + b.width && b.y <= c.y < b.y + b.height
  }

  /** `v` lies between `p` and `q`, in either order. */
  predicate Between(v: int, p: int, q: int) {
    (p <= v <= q) || (q <= v <= p)
  }

  /** The inclusive bounding box of two corner cells: exactly the cells between them on both axes. */
  function Bounds(a: Coordinates, b: Coordinates): (r: Box)
    ensures InBox(r, a) && InBox(r, b)
    ensures forall c {:trigger InBox(r, c)} :: InBox(r, c) <==> Between(c.x, a.x, b.x) && Between(c.y, a.y, b.y)
  {
    Box(if a.x < b.x then a.x else b.x, if a.y < b.y then a.y else b.y,
        Abs(a.x - b.x) + 1, Abs(a.y - b.y) + 1)
  }

  /** A 1x1 floor tile (no type, no facing, no creature). */
  function SpaceAt(c: Coordinates): Point {
    Point(c, 1, 1, None, None, None)
  }

  /** The one-point overlay that previews a rectangle. */
  function MouseSelect(b: Box): Point {
    Point(Coordinates(b.x, b.y), b.width, b.height, Some("mouse-select"), None, None)
  }

  /** The MOUSE layer the preview effect writes: one bounding-box overlay while both corners are set, empty otherwise. */
  function Preview(start: Option<Coordinates>, end: Option<Coordinates>): (overlay: seq<Point>)
    ensures |overlay| == (if start.Some? && end.Some? then 1 else 0)
    ensures |overlay| == 1 ==> overlay[0] == MouseSelect(Bounds(start.value, end.value))
  {
    if start.Some? && end.Some? then [MouseSelect(Bounds(start.value, end.value))] else []
  }

  /** The free cells of column `x`, rows `y0` to `y0 + h - 1`, as new floor tiles in row order. */
  function FillColumn(spaces: seq<Point>, x: int, y0: int, h: nat): seq<Point> {
    if h == 0 then []
    else
      var c := Coordinates(x, y0 + h - 1);
      FillColumn(spaces, x, y0, h - 1) + (if Occupied(spaces, c) then [] else [SpaceAt(c)])
  }

  /** The free cells of the first `cols` columns of `b`, column by column: what the nested loops push. */
  function Fill(spaces: seq<Point>, b: Box, cols: nat): seq<Point> {
    if cols == 0 then []
    else Fill(spaces, b, cols - 1) + FillColumn(spaces, b.x + cols - 1, b.y, b.height)
  }

  /** A tile the rectangle adds: a floor tile inside `b` on a cell `spaces` leaves free. */
  predicate NewSpace(spaces: seq<Point>, b: Box, p: Point) {
    p == SpaceAt(p.coordinates) && InBox(b, p.coordinates) && !Occupied(spaces, p.coordinates)
  }

  lemma {:induction false} FillColumnFacts(spaces: seq<Point>, x: int, y0: int, h: nat)
    ensures forall k :: 0 <= k < |FillColumn(spaces, x, y0, h)| ==>
      NewSpace(spaces, Box(x, y0, 1, h), FillColumn(spaces, x, y0, h)[k])
    ensures Distinct(FillColumn(spaces, x, y0, h))
    ensures forall y :: y0 <= y < y0 + h && !Occupied(spaces, Coordinates(x, y)) ==>
      Occupied(FillColumn(spaces, x, y0, h), Coordinates(x, y))
  {
    if h > 0 {
      FillColumnFacts(spaces, x, y0, h - 1);
      var init := FillColumn(spaces, x, y0, h - 1);
      var c := Coordinates(x, y0 + h - 1);
      var tail := if Occupied(spaces, c) then [] else [SpaceAt(c)];
      var col := init + tail;
      assert forall k :: 0 <= k < |init| ==> init[k].coordinates.y < y0 + h - 1;
      DistinctConcat(init, tail);
      forall k | 0 <= k < |col| ensures NewSpace(spaces, Box(x, y0, 1, h), col[k]) {
        if k < |init| {
          assert col[k] == init[k] && NewSpace(spaces, Box(x, y0, 1, h - 1), init[k]);
        } else {
          assert col[k] == SpaceAt(c);
        }
      }
      forall y | y0 <= y < y0 + h && !Occupied(spaces, Coordinates(x, y))
        ensures Occupied(col, Coordinates(x, y))
      {
        OccupiedConcat(init, tail, Coordinates(x, y));
        if y == y0 + h - 1 {
          assert tail[0].coordinates == Coordinates(x, y);
        }
      }
    }
  }

  lemma {:induction false} FillFacts(spaces: seq<Point>, b: Box, cols: nat)
    ensures forall k :: 0 <= k < |Fill(spaces, b, cols)| ==> NewSpace(spaces, b.(width := cols), Fill(spaces, b, cols)[k])
    ensures Distinct(Fill(spaces, b, cols))
    ensures forall c :: InBox(b.(width := cols), c) && !Occupied(spaces, c) ==> Occupied(Fill(spaces, b, cols), c)
  {
    if cols > 0 {
      FillFacts(spaces, b, cols - 1);
      var x := b.x + cols - 1;
      FillColumnFacts(spaces, x, b.y, b.height);
      var init := Fill(spaces, b, cols - 1);
      var col := FillColumn(spaces, x, b.y, b.height);
      assert Disjoint(init, col) by {
        assert forall k :: 0 <= k < |init| ==> init[k].coordinates.x < x;
        assert forall k :: 0 <= k < |col| ==> col[k].coordinates.x == x;
      }
      DistinctConcat(init, col);
      var wide := b.(width := cols);
      forall k | 0 <= k < |init + col| ensures NewSpace(spaces, wide, (init + col)[k]) {
        if k < |init| {
          assert (init + col)[k] == init[k] && NewSpace(spaces, b.(width := cols - 1), init[k]);
        } else {
          assert (init + col)[k] == col[k - |init|] && NewSpace(spaces, Box(x, b.y, 1, b.height), col[k - |init|]);
        }
      }
      forall c | InBox(wide, c) && !Occupied(spaces, c)
        ensures Occupied(init + col, c)
      {
        OccupiedConcat(init, col, c);
      }
    }
  }

  /**
   * Committing a rectangle: the layer afterwards holds a point at `c` exactly
   * when it did before or `c` is in the box; every added tile is a 1x1 floor
   * tile on a cell that was free, none twice; and a layer without duplicates
   * stays without duplicates.
   */
  lemma FillExact(spaces: seq<Point>, b: Box)
    ensures forall c :: Occupied(spaces + Fill(spaces, b, b.width), c) <==> Occupied(spaces, c) || InBox(b, c)
    ensures forall k :: 0 <= k < |Fill(spaces, b, b.width)| ==> NewSpace(spaces, b, Fill(spaces, b, b.width)[k])
    ensures Distinct(spaces) ==> Distinct(spaces + Fill(spaces, b, b.width))
  {
    var added := Fill(spaces, b, b.width);
    FillFacts(spaces, b, b.width);
    assert b.(width := b.width) == b;
    forall c ensures Occupied(spaces + added, c) <==> Occupied(spaces, c) || InBox(b, c) {
      OccupiedConcat(spaces, added, c);
      if Occupied(added, c) {
        var k :| 0 <= k < |added| && added[k].coordinates == c;
        assert NewSpace(spaces, b, added[k]);
      }
    }
    if Distinct(spaces) {
      assert Disjoint(spaces, added) by {
        forall i, j | 0 <= i < |spaces| && 0 <= j < |added|
          ensures spaces[i].coordinates != added[j].coordinates
        {
          assert NewSpace(spaces, b, added[j]);
        }
      }
      DistinctConcat(spaces, added);
    }
  }

  lemma {:induction false} FillNothingWhenCovered(spaces: seq<Point>, b: Box, cols: nat)
    requires forall c :: InBox(b, c) ==> Occupied(spaces, c)
    requires cols <= b.width
    ensures Fill(spaces, b, cols) == []
  {
    if cols > 0 {
      FillNothingWhenCovered(spaces, b, cols - 1);
      FillColumnFacts(spaces, b.x + cols - 1, b.y, b.height);
      var col := FillColumn(spaces, b.x + cols - 1, b.y, b.height);
      if |col| > 0 {
        assert NewSpace(spaces, Box(b.x + cols - 1, b.y, 1, b.height), col[0]);
        assert InBox(b, col[0].coordinates);
      }
    }
  }

  /** Committing the same rectangle again adds nothing. */
  lemma FillIdempotent(spaces: seq<Point>, b: Box)
    ensures Fill(spaces + Fill(spaces, b, b.width), b, b.width) == []
  {
    FillExact(spaces, b);
    FillNothingWhenCovered(spaces + Fill(spaces, b, b.width), b, b.width);
  }

  /** The rectangle spanned by two corners does not depend on their order. */
  lemma BoundsSymmetric(a: Coordinates, b: Coordinates)
    ensures Bounds(a, b) == Bounds(b, a)
  {
  }

  /** The nested loops of `addRectangleSpaces`: each cell of the box, column by column, that the layer leaves free. */
  method MissingCells(spaces: seq<Point>, b: Box) returns (newPoints: seq<Point>)
    ensures newPoints == Fill(spaces, b, b.width)
  {
    newPoints := [];
    var addX := 0;
    while addX < b.width
      invariant 0 <= addX <= b.width
      invariant newPoints == Fill(spaces, b, addX)
    {
      var addY := 0;
      while addY < b.height
        invariant 0 <= addY <= b.height
        invariant newPoints == Fill(spaces, b, addX) + FillColumn(spaces, b.x + addX, b.y, addY)
      {
        var c := Coordinates(b.x + addX, b.y + addY);
        var absent := CellDoesNotExist(spaces, c);
        if absent {
          newPoints := newPoints + [SpaceAt(c)];
        }
        addY := addY + 1;
      }
      addX := addX + 1;
    }
  }

  /**
   * The floor layer after a rectangle commit (`addRectangleSpaces`): with both
   * corners set, the missing cells of their bounding box are appended; with
   * either corner missing, nothing changes.
   */
  function Committed(spaces: seq<Point>, start: Option<Coordinates>, end: Option<Coordinates>): (r: seq<Point>)
    ensures start.None? || end.None? ==> r == spaces
    ensures |spaces| <= |r| && r[..|spaces|] == spaces
    ensures Distinct(spaces) ==> Distinct(r)
  {
    if start.Some? && end.Some? then
      var b := Bounds(start.value, end.value);
      FillExact(spaces, b);
      spaces + Fill(spaces, b, b.width)
    else spaces
  }

  /**
   * With both corners set, a commit fills exactly the box: a cell is occupied
   * afterwards iff it was before or lies in the box, and every appended point
   * is a 1x1 space on a cell of the box that was free.
   */
  lemma CommittedExact(spaces: seq<Point>, start: Coordinates, end: Coordinates)
    ensures var r, b := Committed(spaces, Some(start), Some(end)), Bounds(start, end);
      && (forall c :: Occupied(r, c) <==> Occupied(spaces, c) || InBox(b, c))
      && (forall k :: |spaces| <= k < |r| ==> NewSpace(spaces, b, r[k]))
  {
    var b := Bounds(start, end);
    var fill := Fill(spaces, b, b.width);
    FillExact(spaces, b);
    assert forall k :: |spaces| <= k < |spaces + fill| ==> (spaces + fill)[k] == fill[k - |spaces|];
  }

  /** The rectangle spanned by two corners does not depend on their order. */
  lemma CommittedSymmetric(spaces: seq<Point>, a: Coordinates, b: Coordinates)
    ensures Committed(spaces, Some(a), Some(b)) == Committed(spaces, Some(b), Some(a))
  {
    BoundsSymmetric(a, b);
  }

  /** Committing the same rectangle a second time adds nothing. */
  lemma CommittedIdempotent(spaces: seq<Point>, start: Option<Coordinates>, end: Option<Coordinates>)
    ensures Committed(Committed(spaces, start, end), start, end) == Committed(spaces, start, end)
  {
    if start.Some? && end.Some? {
      var b := Bounds(start.value, end.value);
      FillIdempotent(spaces, b);
      assert Committed(spaces, start, end) + [] == Committed(spaces, start, end);
    }
  }

  /** `addRectangleSpaces`: the commit step, run with the corners recorded at the time of the click. */
  method CommitRectangle(spaces: seq<Point>, start: Option<Coordinates>, end: Option<Coordinates>)
    returns (r: seq<Point>)
    ensures r == Committed(spaces, start, end)
  {
    r := spaces;
    if start.Some? && end.Some? {
      var newPoints := MissingCells(spaces, Bounds(start.value, end.value));
      r := spaces + newPoints;
    }
  }

  // ---------------------------------------------------------------------
  // The zoom control

  /** `changeZoom`: a step is taken only when the result stays strictly between 0 and 5.5. */
  function StepZoom(zoom: real, step: real): (r: real)
    ensures 0.0 < zoom < 5.5 ==> 0.0 < r < 5.5
    ensures r == zoom + step <==> 0.0 < zoom + step < 5.5 || step == 0.0
    ensures r != zoom + step ==> r == zoom
  {
    if 0.0 < zoom + step && zoom + step < 5.5 then zoom + step else zoom
  }

  /** The zoom in quarters after one press of the zoom buttons: moved by one and kept within 1..21. */
  function QuarterStep(quarters: int, zoomIn: bool): int {
    var next := if zoomIn then quarters + 1 else quarters - 1;
    if 0 < next < 22 then next else quarters
  }

  /**
   * Starting from 0.5 and stepping by +-0.25, the zoom is always a whole
   * number of quarters between 1 and 21: stepping the real value is stepping
   * the quarter count.
   */
  lemma ZoomOnQuarterGrid(quarters: int, zoomIn: bool)
    requires 0 < quarters < 22
    ensures StepZoom(quarters as real / 4.0, if zoomIn then 0.25 else -0.25) == QuarterStep(quarters, zoomIn) as real / 4.0
    ensures 0 < QuarterStep(quarters, zoomIn) < 22
  {
    var next := if zoomIn then quarters + 1 else quarters - 1;
    assert quarters as real / 4.0 + (if zoomIn then 0.25 else -0.25) == next as real / 4.0;
    assert 0.0 < next as real / 4.0 < 5.5 <==> 0 < next < 22;
  }

  // ---------------------------------------------------------------------
  // The default map

  /** The `size` x `size` square of floor tiles, column by column. */
  function Square(size: nat): seq<Point> {
    Fill([], Box(0, 0, size, size), size)
  }

  lemma {:induction false} FillEmptyLength(b: Box, cols: nat)
    ensures |Fill([], b, cols)| == cols * b.height
  {
    if cols > 0 {
      FillEmptyLength(b, cols - 1);
      FillColumnEmptyLength(b.x + cols - 1, b.y, b.height);
    }
  }

  lemma {:induction false} FillColumnEmptyLength(x: int, y0: int, h: nat)
    ensures |FillColumn([], x, y0, h)| == h
  {
    if h > 0 {
      FillColumnEmptyLength(x, y0, h - 1);
    }
  }

  /**
   * The default map's floor: `size * size` 1x1 floor tiles, one on every cell
   * of [0, size) x [0, size) and none elsewhere, no cell twice.
   */
  lemma SquareCells(size: nat)
    ensures |Square(size)| == size * size
    ensures forall c :: Occupied(Square(size), c) <==> 0 <= c.x < size && 0 <= c.y < size
    ensures forall k :: 0 <= k < |Square(size)| ==> Square(size)[k] == SpaceAt(Square(size)[k].coordinates)
    ensures Distinct(Square(size))
  {
    var b := Box(0, 0, size, size);
    FillEmptyLength(b, size);
    FillExact([], b);
    assert [] + Square(size) == Square(size);
  }

  /** `generateTestGrid`'s nested loops: every cell of the square, column by column. */
  method SquareSpaces(size: nat) returns (points: seq<Point>)
    ensures points == Square(size)
  {
    points := [];
    var x := 0;
    while x < size
      invariant 0 <= x <= size
      invariant points == Fill([], Box(0, 0, size, size), x)
    {
      var y := 0;
      while y < size
        invariant 0 <= y <= size
        invariant points == Fill([], Box(0, 0, size, size), x) + FillColumn([], x, 0, y)
      {
        points := points + [SpaceAt(Coordinates(x, y))];
        y := y + 1;
      }
      x := x + 1;
    }
  }
}
