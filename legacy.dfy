/**
 * The older three-layer editor the home page mounts: floor tiles only,
 * placed one at a time or as a two-click rectangle, with the rectangle
 * preview in its own layer. Nothing is loaded or saved, so the preview
 * layer always matches the corners and no layer ever holds a cell twice.
 */
module LegacyEditor {
  import opened Wrappers
  import opened Points
  import opened Cells
  import Editor

  const SPACES: nat := 0
  const BARRIERS: nat := 1
  const MOUSE: nat := 2

  /** `generateTestGrid(size)`: the three layers with a `size` x `size` floor and nothing else. */
  function LegacyGrid(size: nat): (g: seq<Editor.Layer>)
    ensures |g| == 3 && g[SPACES].points == Square(size)
    ensures g[BARRIERS].points == [] && g[MOUSE].points == []
  {
    [Editor.Layer("SPACES", Square(size)), Editor.Layer("BARRIERS", []), Editor.Layer("MOUSE", [])]
  }

  /** The nested loops of `generateTestGrid`; no layer of the result holds a cell twice. */
  method GenerateLegacyGrid(size: nat) returns (layers: seq<Editor.Layer>)
    ensures layers == LegacyGrid(size)
    ensures forall i :: 0 <= i < |layers| ==> Distinct(layers[i].points)
  {
    var floor := SquareSpaces(size);
    layers := [Editor.Layer("SPACES", floor), Editor.Layer("BARRIERS", []), Editor.Layer("MOUSE", [])];
    SquareCells(size);
  }

  /**
   * The editor's state: the three layers, the tool, the label origin, the
   * zoom and the rectangle corners.
   */
  class LegacyMap {
    var layers: seq<Editor.Layer>
    var tool: Editor.Tool
    var labelZeroX: int
    var labelZeroY: int
    var zoom: real
    var rectStart: Option<Coordinates>
    var rectEnd: Option<Coordinates>

    /**
     * Three layers, none holding a cell twice; the preview layer is the
     * overlay of the current corners; an end corner only after a start
     * corner; the label origin never right of or below the origin; the zoom
     * strictly between 0 and 5.5.
     */
    ghost predicate Valid()
      reads this
    {
      && |layers| == 3
      && (forall i :: 0 <= i < 3 ==> Distinct(layers[i].points))
      && layers[MOUSE].points == Preview(rectStart, rectEnd)
      && (rectEnd.Some? ==> rectStart.Some?)
      && labelZeroX <= 0 && labelZeroY <= 0
      && 0.0 < zoom < 5.5
    }

    /** The first render: the default grid (`size` is `generateTestGrid`'s default, 16), no tool, zoom 0.5. */
    constructor (size: nat := 16)
      ensures Valid()
      ensures layers == LegacyGrid(size) && tool == Editor.NoTool
      ensures labelZeroX == 0 && labelZeroY == 0 && zoom == 0.5
      ensures rectStart.None? && rectEnd.None?
    {
      var grid := GenerateLegacyGrid(size);
      layers := grid;
      tool := Editor.NoTool;
      labelZeroX := 0;
      labelZeroY := 0;
      zoom := 0.5;
      rectStart := None;
      rectEnd := None;
    }

    /** `selectTool`: the tool changes and nothing else does. */
    method SelectTool(t: Editor.Tool)
      requires Valid()
      modifies this`tool
      ensures Valid()
      ensures tool == t
    {
      tool := t;
    }

    /** `addSingleSpace`: a floor tile is placed only on a free cell. */
    method AddSingleSpace(c: Coordinates)
      requires Valid()
      modifies this`layers
      ensures Valid()
      ensures layers == Editor.SetPoints(old(layers), SPACES, Placed(old(layers)[SPACES].points, SpaceAt(c)))
    {
      var absent := CellDoesNotExist(layers[SPACES].points, c);
      if absent {
        layers := Editor.SetPoints(layers, SPACES, layers[SPACES].points + [SpaceAt(c)]);
      }
      PlacedOnce(old(layers)[SPACES].points, SpaceAt(c));
    }

    /**
     * `handleRectangleClick`: the first click sets the start corner; the
     * second commits the box spanned by the start corner and the last
     * recorded end corner and clears both corners.
     */
    method HandleRectangleClick(c: Coordinates)
      requires Valid()
      modifies this`layers, this`rectStart, this`rectEnd
      ensures Valid()
      ensures old(rectStart).None? ==> rectStart == Some(c) && rectEnd == old(rectEnd) && layers == old(layers)
      ensures old(rectStart).Some? ==>
        rectStart.None? && rectEnd.None?
        && layers == Editor.SetPoints(Editor.SetPoints(old(layers), SPACES,
                                        Committed(old(layers)[SPACES].points, old(rectStart), old(rectEnd))),
                                      MOUSE, [])
    {
      if rectStart.None? {
        rectStart := Some(c);
        layers := Editor.SetPoints(layers, MOUSE, Preview(rectStart, rectEnd));
        return;
      }
      var spaces := CommitRectangle(layers[SPACES].points, rectStart, rectEnd);
      layers := Editor.SetPoints(layers, SPACES, spaces);
      rectStart := None;
      rectEnd := None;
      layers := Editor.SetPoints(layers, MOUSE, Preview(rectStart, rectEnd));
    }

    /**
     * `onGridClick` at cell `c`: the label origin is lowered to the cell;
     * `single-space` places a tile and drops any pending rectangle;
     * `rectangle-space` goes to the rectangle gesture; other tools do nothing.
     */
    method GridClick(c: Coordinates)
      requires Valid()
      modifies this`layers, this`labelZeroX, this`labelZeroY, this`rectStart, this`rectEnd
      ensures Valid()
      ensures labelZeroX == Editor.Lowered(old(labelZeroX), c.x) && labelZeroY == Editor.Lowered(old(labelZeroY), c.y)
      ensures tool == Editor.SingleSpace ==>
        rectStart.None? && rectEnd.None?
        && layers == Editor.SetPoints(Editor.SetPoints(old(layers), SPACES, Placed(old(layers)[SPACES].points, SpaceAt(c))),
                                      MOUSE, [])
      ensures tool == Editor.RectangleSpace && old(rectStart).None? ==>
        rectStart == Some(c) && rectEnd == old(rectEnd) && layers == old(layers)
      ensures tool == Editor.RectangleSpace && old(rectStart).Some? ==>
        rectStart.None? && rectEnd.None?
        && layers == Editor.SetPoints(Editor.SetPoints(old(layers), SPACES,
                                        Committed(old(layers)[SPACES].points, old(rectStart), old(rectEnd))),
                                      MOUSE, [])
      ensures tool != Editor.SingleSpace && tool != Editor.RectangleSpace ==>
        layers == old(layers) && rectStart == old(rectStart) && rectEnd == old(rectEnd)
    {
      labelZeroX := Editor.Lowered(labelZeroX, c.x);
      labelZeroY := Editor.Lowered(labelZeroY, c.y);
      match tool {
        case SingleSpace =>
          AddSingleSpace(c);
          rectStart := None;
          rectEnd := None;
          layers := Editor.SetPoints(layers, MOUSE, Preview(rectStart, rectEnd));
        case RectangleSpace =>
          HandleRectangleClick(c);
        case _ =>
      }
    }

    /** `onGridMouseMove` over cell `c`: while anchored, the end corner (and the preview) follows the mouse when the cell changes. */
    method GridMouseMove(c: Coordinates)
      requires Valid()
      modifies this`layers, this`rectEnd
      ensures Valid()
      ensures old(rectStart).Some? ==> rectEnd == Some(c)
      ensures old(rectStart).None? || old(rectEnd) == Some(c) ==> rectEnd == old(rectEnd) && layers == old(layers)
      ensures old(rectStart).Some? && old(rectEnd) != Some(c) ==> layers == Editor.SetPoints(old(layers), MOUSE, Preview(rectStart, rectEnd))
    {
      if rectStart.Some? && rectEnd != Some(c) {
        rectEnd := Some(c);
        layers := Editor.SetPoints(layers, MOUSE, Preview(rectStart, rectEnd));
      }
    }

    /** `changeZoom(step)`: the step is taken only when the zoom stays strictly between 0 and 5.5. */
    method ChangeZoom(step: real)
      requires Valid()
      modifies this`zoom
      ensures Valid()
      ensures zoom == StepZoom(old(zoom), step)
    {
      zoom := StepZoom(zoom, step);
    }
  }
}
