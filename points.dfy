/**
 * The placed tile of the editor and what its view derives from it: the
 * column letters, the label text of a floor tile, the shape chosen by the
 * tile's type and the strip a door occupies inside its cell.
 */
module Points {
  import opened Wrappers
  import Colors

  datatype Coordinates = Coordinates(x: int, y: int)

  /** What a creature is: its name, colour, display symbol and kind ("player" or "npc"). */
  datatype Entity = Entity(name: string, color: string, symbol: string, kind: string)

  /** An edit to an entity: only the fields present are changed. */
  datatype PartialEntity = PartialEntity(
    symbol: Option<string>, color: Option<string>, kind: Option<string>, name: Option<string>)

  /** A placed tile: `kind` is the source's optional `type`, `position` the facing of a door. */
  datatype Point = Point(
    coordinates: Coordinates, width: int, height: int,
    kind: Option<string>, position: Option<string>, entity: Option<Entity>)

  /** The 31 column letters; labels repeat after them. */
  const ABCS: string := "ABCDEFGHIJKLMNOPQRSTUVWXYZ\U{00C6}\U{00CB}\U{012E}\U{00D8}\U{00DB}"

  function Abs(v: int): nat {
    if v < 0 then -v else v
  }

  /**
   * The letter `charAt` gives for a column index: the index is reduced below 31
   * by repeated subtraction, and a negative index reads past the start of the
   * string, which is `undefined` (`None`).
   */
  function Letter(index: int): (r: Option<char>)
    ensures r.Some? <==> index >= 0
  {
    if index >= 0 then Some(ABCS[index % |ABCS|]) else None
  }

  /** `charAt`: subtracts 31 while the index is at least 31, then indexes the alphabet. */
  method CharAt(index: int) returns (r: Option<char>)
    ensures r == Letter(index)
  {
    var trueIndex := index;
    ghost var rounds: nat := 0;
    while trueIndex >= |ABCS|
      invariant trueIndex == index - rounds * |ABCS|
      invariant index >= 0 ==> trueIndex >= 0
      invariant index < 0 ==> rounds == 0
    {
      trueIndex := trueIndex - |ABCS|;
      rounds := rounds + 1;
    }
    if trueIndex >= 0 {
      ModOfShift(trueIndex, rounds);
      r := Some(ABCS[trueIndex]);
    } else {
      r := None;
    }
  }

  /** Adding whole periods does not change the letter index. */
  lemma ModOfShift(t: int, rounds: nat)
    requires 0 <= t < |ABCS|
    ensures (t + rounds * |ABCS|) % |ABCS| == t
  {
    var n := t + rounds * |ABCS|;
    assert n == rounds * |ABCS| + t;
  }

  /** The column a letter names within a period, or -1 for a character that is no column letter. */
  function LetterIndex(ch: char): int {
    if 'A' <= ch <= 'Z' then ch as int - 'A' as int
    else if ch == '\U{00C6}' then 26
    else if ch == '\U{00CB}' then 27
    else if ch == '\U{012E}' then 28
    else if ch == '\U{00D8}' then 29
    else if ch == '\U{00DB}' then 30
    else -1
  }

  lemma LetterIndexInverts(k: int)
    requires 0 <= k < |ABCS|
    ensures LetterIndex(ABCS[k]) == k
  {
  }

  /** The column letters are pairwise different, so a letter names one column of each period. */
  lemma LettersDistinct(i: int, j: int)
    requires 0 <= i < |ABCS| && 0 <= j < |ABCS| && i != j
    ensures ABCS[i] != ABCS[j]
  {
    LetterIndexInverts(i);
    LetterIndexInverts(j);
  }

  /** Labels repeat with period 31. */
  lemma LetterPeriodic(index: int)
    requires index >= 0
    ensures Letter(index + |ABCS|) == Letter(index)
  {
    var t, q := index % |ABCS|, index / |ABCS|;
    assert index == t + q * |ABCS|;
    ModOfShift(t, q);
    ModOfShift(t, q + 1);
    assert index + |ABCS| == t + (q + 1) * |ABCS|;
  }

  function DigitChar(d: nat): (ch: char)
    requires d < 10
    ensures '0' <= ch <= '9'
  {
    ('0' as int + d) as char
  }

  /** The decimal numeral JavaScript prints for a non-negative integer. */
  function NatToDecimal(n: nat): (s: string)
    ensures |s| >= 1
    ensures forall i :: 0 <= i < |s| ==> '0' <= s[i] <= '9'
    ensures s[0] == '0' ==> n == 0
  {
    if n < 10 then [DigitChar(n)] else NatToDecimal(n / 10) + [DigitChar(n % 10)]
  }

  /** The decimal numeral JavaScript prints for an integer (template literal `${i}`). */
  function IntToDecimal(i: int): (s: string)
    ensures |s| >= 1
  {
    if i < 0 then "-" + NatToDecimal(-i) else NatToDecimal(i)
  }

  /** The value of a string of decimal digits (a character that is no digit counts as 0). */
  function DecimalValue(s: string): nat {
    if |s| == 0 then 0
    else
      var last := s[|s| - 1];
      DecimalValue(s[..|s| - 1]) * 10 + (if '0' <= last <= '9' then last as int - '0' as int else 0)
  }

  /** Reads back a numeral printed by IntToDecimal. */
  function ParseDecimal(s: string): int {
    if |s| > 0 && s[0] == '-' then -(DecimalValue(s[1..]) as int) else DecimalValue(s)
  }

  lemma {:induction false} NatDecimalRoundTrip(n: nat)
    ensures DecimalValue(NatToDecimal(n)) == n
  {
    if n >= 10 {
      var s := NatToDecimal(n);
      NatDecimalRoundTrip(n / 10);
      assert s[..|s| - 1] == NatToDecimal(n / 10);
    }
  }

  /** Printing an integer and reading it back gives the integer. */
  lemma IntDecimalRoundTrip(i: int)
    ensures ParseDecimal(IntToDecimal(i)) == i
  {
    if i < 0 {
      NatDecimalRoundTrip(-i);
      assert IntToDecimal(i)[1..] == NatToDecimal(-i);
    } else {
      NatDecimalRoundTrip(i);
    }
  }

  /** Different integers print differently. */
  lemma IntToDecimalInjective(i: int, j: int)
    requires IntToDecimal(i) == IntToDecimal(j)
    ensures i == j
  {
    IntDecimalRoundTrip(i);
    IntDecimalRoundTrip(j);
  }

  /** How a missing letter reads inside a template literal. */
  function LetterText(letter: Option<char>): string {
    match letter
    case Some(ch) => [ch]
    case None => "undefined"
  }

  /** The text of a floor tile: its column letter, then its row number, both shifted by the label origin. */
  function SpaceLabel(c: Coordinates, labelZeroX: int, labelZeroY: int): string {
    LetterText(Letter(c.x + Abs(labelZeroX))) + IntToDecimal(c.y + Abs(labelZeroY))
  }

  /** A label starts with the column letter `ABCS[(x + |zx|) mod 31]`. */
  lemma SpaceLabelLetter(c: Coordinates, labelZeroX: int, labelZeroY: int)
    requires c.x + Abs(labelZeroX) >= 0
    ensures |SpaceLabel(c, labelZeroX, labelZeroY)| >= 2
    ensures SpaceLabel(c, labelZeroX, labelZeroY)[0] == ABCS[(c.x + Abs(labelZeroX)) % |ABCS|]
  {
  }

  /** After its letter, a label is the numeral of `y + |zy|`. */
  lemma SpaceLabelRow(c: Coordinates, labelZeroX: int, labelZeroY: int)
    requires c.x + Abs(labelZeroX) >= 0
    ensures ParseDecimal(SpaceLabel(c, labelZeroX, labelZeroY)[1..]) == c.y + Abs(labelZeroY)
  {
    var numeral := IntToDecimal(c.y + Abs(labelZeroY));
    assert SpaceLabel(c, labelZeroX, labelZeroY)[1..] == numeral;
    IntDecimalRoundTrip(c.y + Abs(labelZeroY));
  }

  /** Two different cells within one 31-column period carry different labels. */
  lemma SpaceLabelsDistinct(c: Coordinates, d: Coordinates, labelZeroX: int, labelZeroY: int)
    requires 0 <= c.x + Abs(labelZeroX) < |ABCS| && 0 <= d.x + Abs(labelZeroX) < |ABCS|
    requires c != d
    ensures SpaceLabel(c, labelZeroX, labelZeroY) != SpaceLabel(d, labelZeroX, labelZeroY)
  {
    if c.x != d.x {
      ColumnsLabelDistinct(c, d, labelZeroX, labelZeroY);
    } else {
      RowsLabelDistinct(c, d, labelZeroX, labelZeroY);
    }
  }

  /** Cells in different columns of one period differ in their first character. */
  lemma ColumnsLabelDistinct(c: Coordinates, d: Coordinates, labelZeroX: int, labelZeroY: int)
    requires 0 <= c.x + Abs(labelZeroX) < |ABCS| && 0 <= d.x + Abs(labelZeroX) < |ABCS|
    requires c.x != d.x
    ensures SpaceLabel(c, labelZeroX, labelZeroY)[0] != SpaceLabel(d, labelZeroX, labelZeroY)[0]
  {
    LabelColumn(c, labelZeroX, labelZeroY);
    LabelColumn(d, labelZeroX, labelZeroY);
  }

  /** Within one period, the first character of a label names its column. */
  lemma LabelColumn(c: Coordinates, labelZeroX: int, labelZeroY: int)
    requires 0 <= c.x + Abs(labelZeroX) < |ABCS|
    ensures LetterIndex(SpaceLabel(c, labelZeroX, labelZeroY)[0]) == c.x + Abs(labelZeroX)
  {
    var i := c.x + Abs(labelZeroX);
    LetterBelowPeriod(i);
    LetterIndexInverts(i);
    assert SpaceLabel(c, labelZeroX, labelZeroY) == [ABCS[i]] + IntToDecimal(c.y + Abs(labelZeroY));
  }

  /** Below 31 the letter is read directly. */
  lemma LetterBelowPeriod(k: int)
    requires 0 <= k < |ABCS|
    ensures Letter(k) == Some(ABCS[k])
  {
    var m := k % |ABCS|;
    assert m == k;
  }

  /** Cells in one column but different rows differ after their letter. */
  lemma RowsLabelDistinct(c: Coordinates, d: Coordinates, labelZeroX: int, labelZeroY: int)
    requires c.x + Abs(labelZeroX) >= 0
    requires c.x == d.x && c.y != d.y
    ensures SpaceLabel(c, labelZeroX, labelZeroY)[1..] != SpaceLabel(d, labelZeroX, labelZeroY)[1..]
  {
    SpaceLabelRow(c, labelZeroX, labelZeroY);
    SpaceLabelRow(d, labelZeroX, labelZeroY);
  }

  /** The shape the view draws for a tile, chosen by its type. */
  datatype Shape = MouseSelectRect | WallRect | ObstacleRect | DoorRect(facing: string) | CreatureShape | SpaceTile

  /** `PointComponent`'s dispatch: a missing type is a space, a missing door facing is `left`, unknown types draw as spaces. */
  function ShapeOf(p: Point): (s: Shape)
    ensures p.kind.None? ==> s == SpaceTile
    ensures s.DoorRect? <==> p.kind == Some("door")
    ensures s.DoorRect? ==> s.facing == p.position.GetOr("left")
    ensures s == CreatureShape <==> p.kind == Some("player") || p.kind == Some("npc")
    ensures s == SpaceTile <==> p.kind !in {Some("mouse-select"), Some("wall"), Some("obstacle"), Some("door"), Some("player"), Some("npc")}
  {
    var kind := p.kind.GetOr("space");
    if kind == "mouse-select" then MouseSelectRect
    else if kind == "wall" then WallRect
    else if kind == "obstacle" then ObstacleRect
    else if kind == "door" then DoorRect(p.position.GetOr("left"))
    else if kind == "player" || kind == "npc" then CreatureShape
    else SpaceTile
  }

  /**
   * The point `PointComponent` hands to a creature's component: the layer's
   * point without its type and with the door facing defaulted to `left`.
   */
  function AsDrawnCreature(p: Point): (d: Point)
    ensures d.kind.None? && d.position == Some(p.position.GetOr("left"))
    ensures d.coordinates == p.coordinates && d.width == p.width && d.height == p.height && d.entity == p.entity
  {
    Point(p.coordinates, p.width, p.height, None, Some(p.position.GetOr("left")), p.entity)
  }

  /** An axis-aligned rectangle in pixels. */
  datatype Rect = Rect(x: real, y: real, width: real, height: real)

  /** The pixel rectangle of a tile at a zoom level. */
  function CellRect(c: Coordinates, width: int, height: int, zoom: real): Rect {
    var scale := Colors.CELL_SCALAR as real * zoom;
    Rect(c.x as real * scale, c.y as real * scale, width as real * scale, height as real * scale)
  }

  predicate Inside(inner: Rect, outer: Rect) {
    && outer.x <= inner.x && inner.x + inner.width <= outer.x + outer.width
    && outer.y <= inner.y && inner.y + inner.height <= outer.y + outer.height
  }

  /**
   * `DoorComponent`: the strip a door occupies. Facing left or right it is a
   * quarter of the cell wide at full height, flush with that side; facing top
   * or bottom it is a quarter of the cell high at full width, flush with that
   * side; any other facing fills the cell.
   */
  method DoorStrip(c: Coordinates, width: int, height: int, position: Option<string>, zoom: real)
    returns (strip: Rect)
    ensures var cell, facing := CellRect(c, width, height, zoom), position.GetOr("left");
      && (facing == "left" || facing == "right" ==>
            strip.width == cell.width / 4.0 && strip.height == cell.height && strip.y == cell.y)
      && (facing == "left" ==> strip.x == cell.x)
      && (facing == "right" ==> strip.x + strip.width == cell.x + cell.width)
      && (facing == "top" || facing == "bottom" ==>
            strip.height == cell.height / 4.0 && strip.width == cell.width && strip.x == cell.x)
      && (facing == "top" ==> strip.y == cell.y)
      && (facing == "bottom" ==> strip.y + strip.height == cell.y + cell.height)
      && (facing !in {"left", "right", "top", "bottom"} ==> strip == cell)
      && (cell.width >= 0.0 && cell.height >= 0.0 ==> Inside(strip, cell))
  {
    var facing := position.GetOr("left");
    var cell := CellRect(c, width, height, zoom);
    var fullWidth := cell.width;
    var fullHeight := cell.height;
    var calcWidth := fullWidth;
    var calcHeight := fullHeight;
    var calcX := cell.x;
    var calcY := cell.y;
    if facing == "left" || facing == "right" {
      calcWidth := calcWidth / 4.0;
      if facing == "right" {
        calcX := calcX + fullWidth - calcWidth;
      }
    } else if facing == "top" || facing == "bottom" {
      calcHeight := calcHeight / 4.0;
      if facing == "bottom" {
        calcY := calcY + fullHeight - calcHeight;
      }
    }
    strip := Rect(calcX, calcY, calcWidth, calcHeight);
  }
}
