/**
 * The four-layer map editor: the grid as named layers of points, the tools
 * that edit it, the creature selection, and the per-slot save in the
 * browser's key-value storage.
 *
 * Pure layer transformations are specified by functions; `MapEditor` holds
 * the editor's state and performs each event handler as one step.
 */
module Editor {
  import opened Wrappers
  import opened Points
  import opened Cells
  import Colors

  const SPACES: nat := 0
  const BARRIERS: nat := 1
  const PLAYERS: nat := 2
  const MOUSE: nat := 3

  /** A named, ordered list of points. */
  datatype Layer = Layer(name: string, points: seq<Point>)

  /** A grid as the editor needs it: the four layers, in order. */
  type Grid = g: seq<Layer> | |g| == 4 witness EmptyGrid()

  function EmptyGrid(): seq<Layer> {
    [Layer("SPACES", []), Layer("BARRIERS", []), Layer("PLAYERS", []), Layer("MOUSE", [])]
  }

  /** The editing tools; `NoTool` is the empty tool name. */
  datatype Tool =
    | NoTool | SingleSpace | SingleWall | SingleDoor | SingleObstacle
    | RectangleSpace | SinglePlayer | SingleNpc | Eraser | Movement

  /** The layers with layer `i`'s points replaced and its name kept. */
  function SetPoints(ls: seq<Layer>, i: nat, ps: seq<Point>): (r: seq<Layer>)
    requires i < |ls|
    ensures |r| == |ls| && r[i] == Layer(ls[i].name, ps)
    ensures forall j :: 0 <= j < |ls| && j != i ==> r[j] == ls[j]
  {
    ls[i := ls[i].(points := ps)]
  }

  /** Replacing one layer by a list without duplicates keeps every layer free of duplicates. */
  lemma SetPointsKeepsDistinct(ls: seq<Layer>, i: nat, ps: seq<Point>)
    requires i < |ls| && Distinct(ps)
    requires forall j :: 0 <= j < |ls| ==> Distinct(ls[j].points)
    ensures forall j :: 0 <= j < |ls| ==> Distinct(SetPoints(ls, i, ps)[j].points)
  {
  }

  // ---------------------------------------------------------------------
  // The default grid

  /** The side of the default square floor. */
  const DEFAULT_SIZE: nat := 16

  /** `generateTestGrid(size)`: the four layers with a `size` x `size` floor and nothing else. */
  function TestGrid(size: nat): (g: Grid)
    ensures g[SPACES].points == Square(size)
    ensures g[BARRIERS].points == [] && g[PLAYERS].points == [] && g[MOUSE].points == []
  {
    EmptyGrid()[SPACES := Layer("SPACES", Square(size))]
  }

  /** Every layer of the default grid is free of duplicates and its floor covers exactly [0, size)^2. */
  lemma TestGridCells(size: nat)
    ensures forall i :: 0 <= i < 4 ==> Distinct(TestGrid(size)[i].points)
    ensures forall c :: Occupied(TestGrid(size)[SPACES].points, c) <==> 0 <= c.x < size && 0 <= c.y < size
    ensures |TestGrid(size)[SPACES].points| == size * size
  {
    SquareCells(size);
  }

  /** `generateTestGrid`: the nested loops fill the floor; no layer of the result holds a cell twice. */
  method GenerateTestGrid(size: nat) returns (layers: Grid)
    ensures layers == TestGrid(size)
    ensures forall i :: 0 <= i < 4 ==> Distinct(layers[i].points)
  {
    layers := EmptyGrid();
    var floor := SquareSpaces(size);
    layers := layers[SPACES := Layer("SPACES", floor)];
    TestGridCells(size);
  }

  // ---------------------------------------------------------------------
  // Doors

  const FACINGS: set<string> := {"left", "bottom", "right", "top"}

  /** `rotatePosition`: a quarter turn left -> bottom -> right -> top -> left; anything else, or no facing, becomes `left`. */
  function RotatePosition(position: Option<string>): (next: string)
    ensures next in FACINGS
    ensures position.None? || position.value !in FACINGS ==> next == "left"
    ensures position.Some? && position.value in FACINGS ==> next != position.value
  {
    var p := position.GetOr("");
    if p == "left" then "bottom"
    else if p == "bottom" then "right"
    else if p == "right" then "top"
    else if p == "top" then "left"
    else "left"
  }

  /** Four quarter turns bring any of the four facings back to itself. */
  lemma RotateFourTimes(p: string)
    requires p in FACINGS
    ensures RotatePosition(Some(RotatePosition(Some(RotatePosition(Some(RotatePosition(Some(p)))))))) == p
  {
  }

  /** The door `addSingleDoor` appends: 1x1, facing left. */
  function NewDoor(c: Coordinates): Point {
    Point(c, 1, 1, Some("door"), Some("left"), None)
  }

  /**
   * The barrier layer after `addSingleDoor` at `c`: a new left-facing door
   * when no barrier is there, otherwise the first barrier at `c`, of any
   * type, turned a quarter.
   */
  function WithDoor(points: seq<Point>, c: Coordinates): (r: seq<Point>)
    ensures !Occupied(points, c) ==> r == points + [NewDoor(c)]
    ensures Occupied(points, c) ==> |r| == |points|
  {
    var i := FirstAt(points, c);
    if i < 0 then points + [NewDoor(c)]
    else points[i := points[i].(position := Some(RotatePosition(points[i].position)))]
  }

  /**
   * On an occupied cell the door click changes only the facing of the first
   * barrier there: every point keeps its cell, the others are untouched, and
   * the layer keeps its duplicates-free shape.
   */
  lemma WithDoorTurns(points: seq<Point>, c: Coordinates)
    requires Occupied(points, c)
    ensures var i, r := FirstAt(points, c), WithDoor(points, c);
      && r[i] == points[i].(position := Some(RotatePosition(points[i].position)))
      && (forall j :: 0 <= j < |points| && j != i ==> r[j] == points[j])
      && (forall j :: 0 <= j < |points| ==> r[j].coordinates == points[j].coordinates)
      && FirstAt(r, c) == i
  {
    var i, r := FirstAt(points, c), WithDoor(points, c);
    assert r[i].coordinates == c;
  }

  lemma WithDoorDistinct(points: seq<Point>, c: Coordinates)
    requires Distinct(points)
    ensures Distinct(WithDoor(points, c))
  {
    if Occupied(points, c) {
      WithDoorTurns(points, c);
    } else {
      assert Distinct([NewDoor(c)]);
      DistinctConcat(points, [NewDoor(c)]);
    }
  }

  /** Clicking a door cell four more times returns the barrier layer to what it was. */
  lemma {:induction false} DoorClicksCycle(points: seq<Point>, c: Coordinates)
    requires Occupied(points, c)
    requires points[FirstAt(points, c)].position.Some?
    requires points[FirstAt(points, c)].position.value in FACINGS
    ensures WithDoor(WithDoor(WithDoor(WithDoor(points, c), c), c), c) == points
  {
    var i := FirstAt(points, c);
    var p := points[i].position.value;
    var r1 := WithDoor(points, c);
    WithDoorTurns(points, c);
    var r2 := WithDoor(r1, c);
    WithDoorTurns(r1, c);
    var r3 := WithDoor(r2, c);
    WithDoorTurns(r2, c);
    var r4 := WithDoor(r3, c);
    WithDoorTurns(r3, c);
    RotateFourTimes(p);
    assert r4[i] == points[i];
  }

  // ---------------------------------------------------------------------
  // Creatures

  const PLAYER_ENTITY: Entity := Entity("PLAYER", "#000000", "@", "player")
  const NPC_ENTITY: Entity := Entity("NPC", "#805ad5", ">", "npc")

  /**
   * The cell `addSingleCell` builds: 1x1 of the given type; a player gets the
   * default player, an npc a copy of the override or the default npc, any
   * other type no creature.
   */
  function MakeCell(c: Coordinates, kind: Option<string>, npcOverride: Option<Entity>): (cell: Point)
    ensures cell.coordinates == c && cell.width == 1 && cell.height == 1
    ensures cell.kind == kind && cell.position.None?
    ensures cell.entity.Some? <==> kind == Some("player") || kind == Some("npc")
    ensures kind == Some("player") ==> cell.entity == Some(PLAYER_ENTITY)
    ensures kind == Some("npc") ==> cell.entity == Some(npcOverride.GetOr(NPC_ENTITY))
  {
    var entity :=
      if kind == Some("player") then Some(PLAYER_ENTITY)
      else if kind == Some("npc") then Some(npcOverride.GetOr(NPC_ENTITY))
      else None;
    Point(c, 1, 1, kind, None, entity)
  }

  /** `{ ...entity, ...edit }`: the fields the edit carries replace the entity's. */
  function Merge(e: Entity, edit: PartialEntity): Entity {
    Entity(edit.name.GetOr(e.name), edit.color.GetOr(e.color), edit.symbol.GetOr(e.symbol), edit.kind.GetOr(e.kind))
  }

  /**
   * An empty edit changes nothing, an edit applied twice is applied once,
   * and each field the edit lacks is kept while each one it carries replaces
   * the entity's.
   */
  lemma MergeLaws(e: Entity, edit: PartialEntity)
    ensures Merge(e, PartialEntity(None, None, None, None)) == e
    ensures Merge(Merge(e, edit), edit) == Merge(e, edit)
    ensures Merge(e, edit).name == if edit.name.Some? then edit.name.value else e.name
    ensures Merge(e, edit).color == if edit.color.Some? then edit.color.value else e.color
    ensures Merge(e, edit).symbol == if edit.symbol.Some? then edit.symbol.value else e.symbol
    ensures Merge(e, edit).kind == if edit.kind.Some? then edit.kind.value else e.kind
  {
  }

  /**
   * The creature layer after a relocation from `from` to `to`: the first point
   * at `from` takes the cell `to` when `to` is free; otherwise, or when no
   * point is at `from`, nothing changes.
   */
  function Relocated(points: seq<Point>, from: Coordinates, to: Coordinates): (r: seq<Point>)
    ensures |r| == |points|
    ensures !Occupied(points, from) || Occupied(points, to) ==> r == points
  {
    var i := FirstAt(points, from);
    if i < 0 || Occupied(points, to) then points
    else points[i := points[i].(coordinates := to)]
  }

  /**
   * A relocation to a free cell moves exactly one point: it lands on `to`, the
   * others stay, the cell `to` is then occupied, and in a layer without
   * duplicates `from` is left empty and no duplicate appears.
   */
  lemma RelocatedMoves(points: seq<Point>, from: Coordinates, to: Coordinates)
    requires Occupied(points, from) && !Occupied(points, to)
    ensures var i, r := FirstAt(points, from), Relocated(points, from, to);
      && r[i] == points[i].(coordinates := to)
      && (forall j :: 0 <= j < |points| && j != i ==> r[j] == points[j])
      && Occupied(r, to)
      && (Distinct(points) ==> Distinct(r) && !Occupied(r, from))
  {
    var i, r := FirstAt(points, from), Relocated(points, from, to);
    assert r[i].coordinates == to;
    if Distinct(points) {
      forall j, k | 0 <= j < k < |r| ensures r[j].coordinates != r[k].coordinates {
        if j == i {
          assert points[k].coordinates != to;
        } else if k == i {
          assert points[j].coordinates != to;
        }
      }
    }
  }

  lemma RelocatedDistinct(points: seq<Point>, from: Coordinates, to: Coordinates)
    requires Distinct(points)
    ensures Distinct(Relocated(points, from, to))
  {
    if Occupied(points, from) && !Occupied(points, to) {
      RelocatedMoves(points, from, to);
    }
  }

  /**
   * The selection after the selected creature `sel` is relocated to `to`:
   * when the relocation moves a point, a copy of that point as it now stands
   * in the layer; otherwise the selection as it was.
   */
  function SelectionMoved(points: seq<Point>, sel: Point, to: Coordinates): (r: Point)
    ensures Occupied(points, sel.coordinates) && !Occupied(points, to) ==>
      r == Relocated(points, sel.coordinates, to)[FirstAt(points, sel.coordinates)] && r.coordinates == to
    ensures !Occupied(points, sel.coordinates) || Occupied(points, to) ==> r == sel
  {
    var i := FirstAt(points, sel.coordinates);
    if i < 0 || Occupied(points, to) then sel else points[i].(coordinates := to)
  }

  /** A size field that is set and non-zero, as `width && height` tests it. */
  predicate Truthy(v: Option<int>) {
    v.Some? && v.value != 0
  }

  /**
   * `updateSelectedPlayer` on one matching point: a creature gets the edit
   * merged into it when there is an edit; otherwise a set, non-zero width and
   * height resize the point; otherwise it is left as it is.
   */
  function UpdatePoint(p: Point, edit: Option<PartialEntity>, width: Option<int>, height: Option<int>): (r: Point)
    ensures r.coordinates == p.coordinates && r.kind == p.kind && r.position == p.position
    ensures p.entity.Some? && edit.Some? ==> r == p.(entity := Some(Merge(p.entity.value, edit.value)))
    ensures !(p.entity.Some? && edit.Some?) && Truthy(width) && Truthy(height) ==>
      r == p.(width := width.value, height := height.value)
    ensures !(p.entity.Some? && edit.Some?) && !(Truthy(width) && Truthy(height)) ==> r == p
  {
    if p.entity.Some? && edit.Some? then p.(entity := Some(Merge(p.entity.value, edit.value)))
    else if Truthy(width) && Truthy(height) then p.(width := width.value, height := height.value)
    else p
  }

  /** The creature layer after `updateSelectedPlayer`: every point at `target` updated, every other point as it was. */
  function UpdatedAt(points: seq<Point>, target: Coordinates, edit: Option<PartialEntity>,
                     width: Option<int>, height: Option<int>): (r: seq<Point>)
    ensures |r| == |points|
    ensures forall j :: 0 <= j < |points| ==>
      r[j] == (if points[j].coordinates == target then UpdatePoint(points[j], edit, width, height) else points[j])
  {
    seq(|points|, j requires 0 <= j < |points| =>
      if points[j].coordinates == target then UpdatePoint(points[j], edit, width, height) else points[j])
  }

  /** The update of a prefix one point longer: the shorter prefix's update and the point, updated if it is on the target. */
  lemma UpdatedAtStep(points: seq<Point>, j: nat, target: Coordinates, edit: Option<PartialEntity>,
                      width: Option<int>, height: Option<int>)
    requires j < |points|
    ensures UpdatedAt(points[..j + 1], target, edit, width, height)
      == UpdatedAt(points[..j], target, edit, width, height)
         + [if points[j].coordinates == target then UpdatePoint(points[j], edit, width, height) else points[j]]
  {
  }

  /** An update moves no point: the occupied cells, and so the absence of duplicates, are kept. */
  lemma UpdatedAtKeepsCells(points: seq<Point>, target: Coordinates, edit: Option<PartialEntity>,
                            width: Option<int>, height: Option<int>)
    ensures forall c :: Occupied(UpdatedAt(points, target, edit, width, height), c) <==> Occupied(points, c)
    ensures Distinct(points) ==> Distinct(UpdatedAt(points, target, edit, width, height))
  {
    var r := UpdatedAt(points, target, edit, width, height);
    assert forall j :: 0 <= j < |r| ==> r[j].coordinates == points[j].coordinates;
    forall c ensures Occupied(r, c) <==> Occupied(points, c) {
      if Occupied(points, c) {
        var j :| 0 <= j < |points| && points[j].coordinates == c;
        assert r[j].coordinates == c;
      }
    }
  }

  /**
   * What the selection becomes after an update: the selection with the
   * updated entity, or with the new size, taken from the last matching point
   * the update changed; the selection itself when no point was changed.
   */
  function SelectionAfter(points: seq<Point>, sel: Point, edit: Option<PartialEntity>,
                          width: Option<int>, height: Option<int>): (s: Point)
    ensures s.coordinates == sel.coordinates && s.kind == sel.kind && s.position == sel.position
  {
    if |points| == 0 then sel
    else
      var p := points[|points| - 1];
      var earlier := SelectionAfter(points[..|points| - 1], sel, edit, width, height);
      if p.coordinates != sel.coordinates then earlier
      else if p.entity.Some? && edit.Some? then sel.(entity := UpdatePoint(p, edit, width, height).entity)
      else if Truthy(width) && Truthy(height) then sel.(width := width.value, height := height.value)
      else earlier
  }

  /** The selection after a prefix one point longer: the point decides when it is on the selection's cell and gets updated. */
  lemma SelectionAfterStep(points: seq<Point>, j: nat, sel: Point, edit: Option<PartialEntity>,
                           width: Option<int>, height: Option<int>)
    requires j < |points|
    ensures var p, earlier := points[j], SelectionAfter(points[..j], sel, edit, width, height);
      SelectionAfter(points[..j + 1], sel, edit, width, height) ==
        if p.coordinates != sel.coordinates then earlier
        else if p.entity.Some? && edit.Some? then sel.(entity := UpdatePoint(p, edit, width, height).entity)
        else if Truthy(width) && Truthy(height) then sel.(width := width.value, height := height.value)
        else earlier
  {
    assert points[..j + 1][..j] == points[..j];
  }

  /**
   * The `map` of `updateSelectedPlayer`: every point on the selection's cell
   * is updated, and the selection follows each point it updates.
   */
  method UpdatePlayers(players: seq<Point>, sel: Point, edit: Option<PartialEntity>,
                       width: Option<int>, height: Option<int>)
    returns (updated: seq<Point>, selection: Point)
    ensures updated == UpdatedAt(players, sel.coordinates, edit, width, height)
    ensures selection == SelectionAfter(players, sel, edit, width, height)
  {
    updated := [];
    selection := sel;
    var j := 0;
    while j < |players|
      invariant 0 <= j <= |players|
      invariant updated == UpdatedAt(players[..j], sel.coordinates, edit, width, height)
      invariant selection == SelectionAfter(players[..j], sel, edit, width, height)
    {
      UpdatedAtStep(players, j, sel.coordinates, edit, width, height);
      SelectionAfterStep(players, j, sel, edit, width, height);
      var point := players[j];
      if point.coordinates == sel.coordinates {
        if point.entity.Some? && edit.Some? {
          point := point.(entity := Some(Merge(point.entity.value, edit.value)));
          selection := sel.(entity := point.entity);
        } else if Truthy(width) && Truthy(height) {
          point := point.(width := width.value, height := height.value);
          selection := sel.(width := width.value, height := height.value);
        }
      }
      updated := updated + [point];
      j := j + 1;
    }
    assert players[..j] == players;
  }

  /**
   * In a layer without duplicates the updated selection mirrors the one point
   * at its cell: same entity after an entity edit; same size after a resize.
   */
  lemma {:induction false} SelectionMirrorsPoint(points: seq<Point>, sel: Point, edit: Option<PartialEntity>,
                                                 width: Option<int>, height: Option<int>)
    requires Distinct(points) && Occupied(points, sel.coordinates)
    ensures var p := UpdatePoint(points[FirstAt(points, sel.coordinates)], edit, width, height);
      var s := SelectionAfter(points, sel, edit, width, height);
      && s.coordinates == sel.coordinates
      && (points[FirstAt(points, sel.coordinates)].entity.Some? && edit.Some? ==> s.entity == p.entity)
      && (!(points[FirstAt(points, sel.coordinates)].entity.Some? && edit.Some?) && Truthy(width) && Truthy(height) ==>
            s.width == p.width && s.height == p.height)
  {
    var n := |points|;
    var init := points[..n - 1];
    var i := FirstAt(points, sel.coordinates);
    if points[n - 1].coordinates != sel.coordinates {
      assert forall j :: 0 <= j < |init| ==> init[j] == points[j];
      assert Distinct(init);
      assert init[i].coordinates == sel.coordinates;
      assert FirstAt(init, sel.coordinates) == i;
      SelectionMirrorsPoint(init, sel, edit, width, height);
    } else {
      assert i == n - 1;
    }
  }

  // ---------------------------------------------------------------------
  // Erasing

  function TotalPoints(ls: seq<Layer>): nat {
    if |ls| == 0 then 0 else TotalPoints(ls[..|ls| - 1]) + |ls[|ls| - 1].points|
  }

  lemma {:induction false} TotalPointsSet(ls: seq<Layer>, i: nat, ps: seq<Point>)
    requires i < |ls|
    ensures TotalPoints(SetPoints(ls, i, ps)) == TotalPoints(ls) - |ls[i].points| + |ps|
  {
    var n := |ls|;
    var r := SetPoints(ls, i, ps);
    if i < n - 1 {
      assert r[..n - 1] == SetPoints(ls[..n - 1], i, ps);
      TotalPointsSet(ls[..n - 1], i, ps);
    } else {
      assert r[..n - 1] == ls[..n - 1];
    }
  }

  /** The highest layer below `n` that has a point at `c`, or -1. */
  function TopmostAt(ls: seq<Layer>, c: Coordinates, n: nat): (i: int)
    requires n <= |ls|
    ensures -1 <= i < n
    ensures 0 <= i ==> Occupied(ls[i].points, c)
    ensures forall j :: i < j < n ==> !Occupied(ls[j].points, c)
  {
    if n == 0 then -1
    else if Occupied(ls[n - 1].points, c) then n - 1
    else TopmostAt(ls, c, n - 1)
  }

  /** The layers after `erase` at `c`: the first point at `c` of the topmost layer that has one is removed. */
  function Erased(ls: seq<Layer>, c: Coordinates): seq<Layer> {
    var i := TopmostAt(ls, c, |ls|);
    if i < 0 then ls else SetPoints(ls, i, WithoutFirst(ls[i].points, c))
  }

  /**
   * Erasing removes one point in total exactly when some layer holds `c`, from
   * the topmost such layer only; every other layer is untouched, and layers
   * without duplicates stay so.
   */
  lemma EraseRemovesOne(ls: seq<Layer>, c: Coordinates)
    ensures |Erased(ls, c)| == |ls|
    ensures TotalPoints(Erased(ls, c)) ==
      TotalPoints(ls) - (if exists j :: 0 <= j < |ls| && Occupied(ls[j].points, c) then 1 else 0)
    ensures var i := TopmostAt(ls, c, |ls|);
      forall j :: 0 <= j < |ls| && j != i ==> Erased(ls, c)[j] == ls[j]
    ensures (forall j :: 0 <= j < |ls| ==> Distinct(ls[j].points)) ==>
      forall j :: 0 <= j < |ls| ==> Distinct(Erased(ls, c)[j].points)
  {
    var i := TopmostAt(ls, c, |ls|);
    if i >= 0 {
      TotalPointsSet(ls, i, WithoutFirst(ls[i].points, c));
      WithoutFirstKeepsOthers(ls[i].points, c);
    }
  }

  // ---------------------------------------------------------------------
  // Saving

  const LAYERS_KEY: string := "gridsly-map-layers"
  const SHA_KEY: string := "gridsly-map-sha"

  /** The key a slot is written under: the base key for slot 0, the base key and `-<slot>` otherwise. */
  function SlotKey(base: string, slot: int): (key: string)
    ensures |base| <= |key| && key[..|base|] == base
    ensures key == base <==> slot == 0
  {
    if slot == 0 then base else base + "-" + IntToDecimal(slot)
  }

  /** The key `selectMapToEdit` reads a slot from: suffixed only for a positive slot number. */
  function ReadKey(base: string, num: int): string {
    if num > 0 then base + "-" + IntToDecimal(num) else base
  }

  /** Different slots never share a key. */
  lemma SlotKeysDistinct(base: string, s: int, t: int)
    requires s != t
    ensures SlotKey(base, s) != SlotKey(base, t)
  {
    if s != 0 && t != 0 {
      var ks, kt := SlotKey(base, s), SlotKey(base, t);
      if ks == kt {
        assert ks[|base| + 1..] == IntToDecimal(s);
        assert kt[|base| + 1..] == IntToDecimal(t);
        IntToDecimalInjective(s, t);
      }
    }
  }

  /** A layers key is never a hash key. */
  lemma KeyFamiliesDisjoint(s: int, t: int)
    ensures SlotKey(LAYERS_KEY, s) != SlotKey(SHA_KEY, t)
  {
    var a, b := SlotKey(LAYERS_KEY, s), SlotKey(SHA_KEY, t);
    assert a[12] == LAYERS_KEY[12] == 'l';
    assert b[12] == SHA_KEY[12] == 's';
  }

  /** A slot is read from the key it is written to, for every slot number the controls offer (0 and up); a negative number reads slot 0's key. */
  lemma ReadKeyMatchesSlotKey(base: string, num: int)
    ensures num >= 0 ==> ReadKey(base, num) == SlotKey(base, num)
    ensures num < 0 ==> ReadKey(base, num) == SlotKey(base, 0) != SlotKey(base, num)
  {
  }

  /** An unsigned byte, as `Uint8Array` holds it. */
  newtype byte = x: int | 0 <= x < 256

  const HEX_DIGITS: string := "0123456789abcdef"

  /** `toString(16).padStart(2, '0')`: two lowercase hex digits. */
  function HexPair(b: byte): (s: string)
    ensures |s| == 2
  {
    [HEX_DIGITS[b as int / 16], HEX_DIGITS[b as int % 16]]
  }

  /** The digest bytes as lowercase hexadecimal, two digits per byte. */
  function HexJoin(bytes: seq<byte>): (s: string)
    ensures |s| == 2 * |bytes|
    ensures forall i :: 0 <= i < |s| ==> s[i] in HEX_DIGITS
  {
    if |bytes| == 0 then "" else HexPair(bytes[0]) + HexJoin(bytes[1..])
  }

  /** Reads a hex text back into bytes, two digits per byte. */
  function Unhex(s: string): Option<seq<byte>> {
    if |s| == 0 then Some([])
    else if |s| == 1 then None
    else
      match (Colors.HexDigitValue(s[0]), Colors.HexDigitValue(s[1]), Unhex(s[2..]))
      case (Some(hi), Some(lo), Some(rest)) => Some([(16 * hi + lo) as byte] + rest)
      case _ => None
  }

  lemma HexDigitRoundTrip(d: nat)
    requires d < 16
    ensures Colors.HexDigitValue(HEX_DIGITS[d]) == Some(d)
  {
  }

  /** The hex join is lossless: reading it back gives the digest bytes. */
  lemma {:induction false} HexJoinRoundTrip(bytes: seq<byte>)
    ensures Unhex(HexJoin(bytes)) == Some(bytes)
  {
    if |bytes| > 0 {
      HexJoinRoundTrip(bytes[1..]);
      UnhexPair(bytes[0], HexJoin(bytes[1..]));
      assert [bytes[0]] + bytes[1..] == bytes;
    }
  }

  /** Reading a byte's two digits in front of a text gives the byte in front of what the text reads as. */
  lemma UnhexPair(b: byte, rest: string)
    ensures Unhex(HexPair(b) + rest) == match Unhex(rest)
      case Some(r) => Some([b] + r)
      case None => None
  {
    var hi, lo := b as int / 16, b as int % 16;
    var s := HexPair(b) + rest;
    assert s[0] == HEX_DIGITS[hi] && s[1] == HEX_DIGITS[lo] && s[2..] == rest;
    HexDigitRoundTrip(hi);
    HexDigitRoundTrip(lo);
    assert (16 * hi + lo) as byte == b;
  }

  /**
   * A stored map text is never mistaken for a digest: text that starts with
   * a character other than a lowercase hex digit (a JSON array starts with
   * `[`) differs from every hex join, so a persist right after a load always
   * writes.
   */
  lemma TextIsNeverADigest(bytes: seq<byte>, text: string)
    requires text == "" || text[0] !in HEX_DIGITS
    requires text != "" || |bytes| > 0
    ensures HexJoin(bytes) != text
  {
  }

  /** What reading a slot gives: a parsed grid with its text, text that does not parse, or an empty or missing slot. */
  datatype Stored = Parsed(grid: Grid, text: string) | Unparsable | Missing

  /** A slot's text is used only when it is present and non-empty (`if (l)`). */
  function ReadSlot(storage: map<string, string>, key: string, parse: string -> Option<Grid>): (r: Stored)
    ensures r.Missing? <==> key !in storage || storage[key] == ""
    ensures r.Parsed? ==> key in storage && r.text == storage[key] && parse(r.text) == Some(r.grid)
    ensures r.Unparsable? ==> key in storage && parse(storage[key]).None?
  {
    if key !in storage || storage[key] == "" then Missing
    else match parse(storage[key])
      case Some(g) => Parsed(g, storage[key])
      case None => Unparsable
  }

  // ---------------------------------------------------------------------
  // Drawing tools

  /**
   * The grid after a drawing tool is applied at `c`: `single-space`,
   * `single-wall` and `single-obstacle` place a cell, `single-door` adds or
   * turns a door, `eraser` erases; any other tool leaves the grid alone.
   */
  function Painted(t: Tool, ls: seq<Layer>, c: Coordinates): (r: seq<Layer>)
    requires |ls| == 4
    ensures |r| == 4
    ensures t != SingleSpace && t != SingleWall && t != SingleObstacle && t != SingleDoor && t != Eraser ==> r == ls
  {
    match t
    case SingleSpace => SetPoints(ls, SPACES, Placed(ls[SPACES].points, MakeCell(c, None, None)))
    case SingleWall => SetPoints(ls, BARRIERS, Placed(ls[BARRIERS].points, MakeCell(c, Some("wall"), None)))
    case SingleObstacle => SetPoints(ls, BARRIERS, Placed(ls[BARRIERS].points, MakeCell(c, Some("obstacle"), None)))
    case SingleDoor => SetPoints(ls, BARRIERS, WithDoor(ls[BARRIERS].points, c))
    case Eraser => Erased(ls, c)
    case _ => ls
  }

  /**
   * Drawing never creates a duplicate, never touches the creature layer, and
   * leaves the cell `c` occupied on the tool's layer after a placing tool;
   * applying the same placing tool twice is the same as once.
   */
  lemma PaintedFacts(t: Tool, ls: seq<Layer>, c: Coordinates)
    requires |ls| == 4
    ensures (forall i :: 0 <= i < 4 ==> Distinct(ls[i].points)) ==>
      forall i :: 0 <= i < 4 ==> Distinct(Painted(t, ls, c)[i].points)
    ensures Painted(t, ls, c)[PLAYERS] == ls[PLAYERS] || t == Eraser
    ensures t == SingleSpace ==> Occupied(Painted(t, ls, c)[SPACES].points, c)
    ensures t == SingleWall || t == SingleObstacle || t == SingleDoor ==> Occupied(Painted(t, ls, c)[BARRIERS].points, c)
    ensures t != SingleDoor && t != Eraser ==> Painted(t, Painted(t, ls, c), c) == Painted(t, ls, c)
  {
    match t
    case SingleSpace =>
      PlacedOnce(ls[SPACES].points, MakeCell(c, None, None));
    case SingleWall =>
      PlacedOnce(ls[BARRIERS].points, MakeCell(c, Some("wall"), None));
    case SingleObstacle =>
      PlacedOnce(ls[BARRIERS].points, MakeCell(c, Some("obstacle"), None));
    case SingleDoor =>
      if forall i :: 0 <= i < 4 ==> Distinct(ls[i].points) {
        WithDoorDistinct(ls[BARRIERS].points, c);
      }
      var r := WithDoor(ls[BARRIERS].points, c);
      if Occupied(ls[BARRIERS].points, c) {
        WithDoorTurns(ls[BARRIERS].points, c);
        assert r[FirstAt(ls[BARRIERS].points, c)].coordinates == c;
      } else {
        assert r[|ls[BARRIERS].points|].coordinates == c;
      }
    case Eraser =>
      EraseRemovesOne(ls, c);
    case _ =>
  }

  // ---------------------------------------------------------------------
  // The editor

  /** `v` if it is below `zero`, else `zero`: the label origin after a click at `v`. */
  function Lowered(zero: int, v: int): (r: int)
    ensures r <= zero && r <= v && (r == zero || r == v)
  {
    if v < zero then v else zero
  }

  /**
   * The editor's state: the grid, the selected tool, the creature selection
   * and its edit panel, the rectangle corners, the paint-drag state, the
   * label origin, the zoom, the slot being edited with its last hash, and the
   * browser storage.
   */
  class MapEditor {
    var layers: seq<Layer>
    var tool: Tool
    var editOpen: bool
    var selected: Option<Point>
    var rectStart: Option<Coordinates>
    var rectEnd: Option<Coordinates>
    var recentCell: Option<Coordinates>
    var dragging: bool
    var labelZeroX: int
    var labelZeroY: int
    var zoom: real
    var currentMap: int
    var mapHash: Option<string>
    var storage: map<string, string>
    /** The side of the floor `generateTestGrid` builds when it is called without an argument. */
    const gridSize: nat

    /**
     * Four layers; an end corner only after a start corner; the edit panel
     * open only on a selection and never under `movement`; the label origin
     * never right of or below the origin; the zoom strictly between 0 and 5.5.
     */
    ghost predicate Valid()
      reads this
    {
      && |layers| == 4
      && (rectEnd.Some? ==> rectStart.Some?)
      && (editOpen ==> selected.Some?)
      && (tool == Movement ==> !editOpen)
      && labelZeroX <= 0 && labelZeroY <= 0
      && 0.0 < zoom < 5.5
    }

    /** No layer holds two points on the same cell. */
    ghost predicate NoDuplicates()
      reads this
    {
      forall i :: 0 <= i < |layers| ==> Distinct(layers[i].points)
    }

    /**
     * The first render: the default grid (`size` is `generateTestGrid`'s
     * default, 16), tool `single-space`, nothing selected, zoom 0.5, slot 0.
     */
    constructor (storage0: map<string, string>, size: nat := DEFAULT_SIZE)
      ensures Valid() && NoDuplicates()
      ensures layers == TestGrid(size) && tool == SingleSpace && !editOpen && selected.None?
      ensures rectStart.None? && rectEnd.None? && recentCell.None? && !dragging
      ensures labelZeroX == 0 && labelZeroY == 0 && zoom == 0.5
      ensures currentMap == 0 && mapHash.None? && storage == storage0 && gridSize == size
    {
      gridSize := size;
      var grid := GenerateTestGrid(size);
      layers := grid;
      tool := SingleSpace;
      editOpen := false;
      selected := None;
      rectStart := None;
      rectEnd := None;
      recentCell := None;
      dragging := false;
      labelZeroX := 0;
      labelZeroY := 0;
      zoom := 0.5;
      currentMap := 0;
      mapHash := None;
      storage := storage0;
      new;
    }

    /**
     * The mount effects in their order: slot 0's text, when present and
     * non-empty, becomes the grid and is recorded as the hash, and text that
     * does not parse gives the default grid; then the preview effect's first
     * run, with no corner set yet, empties MOUSE of whatever grid that is.
     */
    method LoadStored(parse: string -> Option<Grid>)
      requires Valid() && rectStart.None? && rectEnd.None?
      modifies this`layers, this`mapHash
      ensures Valid()
      ensures match ReadSlot(old(storage), LAYERS_KEY, parse)
        case Parsed(g, text) => layers == SetPoints(g, MOUSE, []) && mapHash == Some(text)
        case Unparsable => layers == TestGrid(gridSize) && mapHash == old(mapHash)
        case Missing => layers == SetPoints(old(layers), MOUSE, []) && mapHash == old(mapHash)
    {
      var stored := ReadSlot(storage, LAYERS_KEY, parse);
      match stored {
        case Parsed(g, text) =>
          layers := g;
          mapHash := Some(text);
        case Unparsable =>
          layers := GenerateTestGrid(gridSize);
        case Missing =>
      }
      layers := SetPoints(layers, MOUSE, Preview(rectStart, rectEnd));
    }

    /**
     * The persist effect: the grid's text is hashed; when the hash differs
     * from the recorded one the text and hash are written under the current
     * slot's keys and the hash is recorded, otherwise nothing is written.
     * `serialize` is `JSON.stringify` and `sha256` the SHA-256 digest of the
     * text's UTF-8 bytes.
     */
    method Persist(serialize: seq<Layer> -> string, sha256: string -> seq<byte>)
      modifies this`mapHash, this`storage
      ensures var text := serialize(layers); var h := HexJoin(sha256(text));
        && mapHash == Some(h)
        && (old(mapHash) == Some(h) ==> storage == old(storage))
        && (old(mapHash) != Some(h) ==>
              storage == old(storage)[SlotKey(LAYERS_KEY, currentMap) := text][SlotKey(SHA_KEY, currentMap) := h]
              && storage[SlotKey(LAYERS_KEY, currentMap)] == text
              && storage[SlotKey(SHA_KEY, currentMap)] == h)
    {
      var text := serialize(layers);
      var h := HexJoin(sha256(text));
      if mapHash != Some(h) {
        storage := storage[SlotKey(LAYERS_KEY, currentMap) := text];
        storage := storage[SlotKey(SHA_KEY, currentMap) := h];
        KeyFamiliesDisjoint(currentMap, currentMap);
      }
      mapHash := Some(h);
    }

    /**
     * `selectMapToEdit(num)`: nothing for the current slot; otherwise the
     * slot's text becomes the grid (and is recorded as the hash), and a
     * missing, empty or unparsable slot gives the default grid; the slot
     * number is then `num`.
     */
    method SelectMapToEdit(num: int, parse: string -> Option<Grid>)
      requires Valid()
      modifies this`layers, this`mapHash, this`currentMap
      ensures Valid()
      ensures num == old(currentMap) ==> layers == old(layers) && mapHash == old(mapHash) && currentMap == old(currentMap)
      ensures num != old(currentMap) ==> currentMap == num
      ensures num != old(currentMap) ==>
        (match ReadSlot(old(storage), ReadKey(LAYERS_KEY, num), parse)
         case Parsed(g, text) => layers == g && mapHash == Some(text)
         case _ => layers == TestGrid(gridSize) && mapHash == old(mapHash))
    {
      if currentMap != num {
        var stored := ReadSlot(storage, ReadKey(LAYERS_KEY, num), parse);
        match stored {
          case Parsed(g, text) =>
            layers := g;
            mapHash := Some(text);
          case _ =>
            layers := GenerateTestGrid(gridSize);
        }
        currentMap := num;
      }
    }

    /**
     * Choosing a tool. A different tool clears both rectangle corners (and
     * with them the preview), closes the edit panel and forgets the last
     * painted cell; choosing the current tool again changes nothing.
     */
    method SelectTool(t: Tool)
      requires Valid()
      modifies this`tool, this`rectStart, this`rectEnd, this`editOpen, this`recentCell, this`layers
      ensures Valid()
      ensures old(NoDuplicates()) ==> NoDuplicates()
      ensures tool == t
      ensures t == old(tool) ==>
        rectStart == old(rectStart) && rectEnd == old(rectEnd) && editOpen == old(editOpen)
        && recentCell == old(recentCell) && layers == old(layers)
      ensures t != old(tool) ==> rectStart.None? && rectEnd.None? && !editOpen && recentCell.None?
      ensures t != old(tool) && old(rectStart).Some? ==> layers == SetPoints(old(layers), MOUSE, [])
      ensures t != old(tool) && old(rectStart).None? ==> layers == old(layers)
    {
      if t != tool {
        tool := t;
        if rectStart.Some? {
          rectStart := None;
          rectEnd := None;
          layers := SetPoints(layers, MOUSE, Preview(None, None));
        }
        editOpen := false;
        recentCell := None;
      }
    }

    /** `addSingleCell`: the cell is built with its defaults and placed on the layer only when the layer has nothing there. */
    method AddSingleCell(layer: nat, c: Coordinates, kind: Option<string>, npcOverride: Option<Entity>)
      returns (cell: Point)
      requires Valid() && layer < 4
      modifies this`layers
      ensures Valid()
      ensures old(NoDuplicates()) ==> NoDuplicates()
      ensures cell == MakeCell(c, kind, npcOverride)
      ensures layers == SetPoints(old(layers), layer, Placed(old(layers)[layer].points, cell))
    {
      cell := MakeCell(c, kind, npcOverride);
      var absent := CellDoesNotExist(layers[layer].points, c);
      if absent {
        layers := SetPoints(layers, layer, layers[layer].points + [cell]);
      }
      PlacedOnce(old(layers)[layer].points, cell);
    }

    /** `addSingleDoor`: a new left-facing door on a free barrier cell, a quarter turn of the barrier already there otherwise. */
    method AddSingleDoor(c: Coordinates)
      requires Valid()
      modifies this`layers
      ensures Valid()
      ensures old(NoDuplicates()) ==> NoDuplicates()
      ensures layers == SetPoints(old(layers), BARRIERS, WithDoor(old(layers)[BARRIERS].points, c))
    {
      var barriers := layers[BARRIERS].points;
      var absent := CellDoesNotExist(barriers, c);
      if absent {
        layers := SetPoints(layers, BARRIERS, barriers + [NewDoor(c)]);
      } else {
        var i := IndexOfCell(barriers, c);
        var door := barriers[i];
        barriers := barriers[i := door.(position := Some(RotatePosition(door.position)))];
        layers := SetPoints(layers, BARRIERS, barriers);
      }
      if old(NoDuplicates()) {
        WithDoorDistinct(old(layers)[BARRIERS].points, c);
      }
    }

    /** `erase`: from the top layer down, the first layer holding `c` loses its first point there; the scan stops at that layer. */
    method Erase(c: Coordinates)
      requires Valid()
      modifies this`layers
      ensures Valid()
      ensures old(NoDuplicates()) ==> NoDuplicates()
      ensures layers == Erased(old(layers), c)
    {
      EraseRemovesOne(layers, c);
      var i := |layers| - 1;
      while i >= 0
        invariant -1 <= i < |layers|
        invariant layers == old(layers)
        invariant forall j :: i < j < |layers| ==> !Occupied(layers[j].points, c)
        decreases i + 1
      {
        var initLength := |layers[i].points|;
        var rest := EraseCell(layers[i].points, c);
        if |rest| != initLength {
          layers := SetPoints(layers, i, rest);
          return;
        }
        i := i - 1;
      }
    }

    /**
     * A click with `rectangle-space`. The first click sets the start corner
     * (the preview stays empty). The second lowers the label origin to the
     * clicked cell, commits the box spanned by the start corner and the last
     * recorded end corner, and clears both corners and the preview.
     */
    method HandleRectangleClick(c: Coordinates)
      requires Valid()
      modifies this`rectStart, this`rectEnd, this`labelZeroX, this`labelZeroY, this`layers
      ensures Valid()
      ensures old(NoDuplicates()) ==> NoDuplicates()
      ensures old(rectStart).None? ==>
        rectStart == Some(c) && rectEnd == old(rectEnd) && layers == SetPoints(old(layers), MOUSE, [])
        && labelZeroX == old(labelZeroX) && labelZeroY == old(labelZeroY)
      ensures old(rectStart).Some? ==>
        rectStart.None? && rectEnd.None?
        && labelZeroX == Lowered(old(labelZeroX), c.x) && labelZeroY == Lowered(old(labelZeroY), c.y)
        && layers == SetPoints(SetPoints(old(layers), SPACES,
                                         Committed(old(layers)[SPACES].points, old(rectStart), old(rectEnd))),
                               MOUSE, [])
    {
      if rectStart.None? {
        rectStart := Some(c);
        layers := SetPoints(layers, MOUSE, Preview(rectStart, rectEnd));
        return;
      }
      FinishRectangle(c);
    }

    /** The second rectangle click: label origin lowered, box committed, corners and preview cleared. */
    method FinishRectangle(c: Coordinates)
      requires Valid() && rectStart.Some?
      modifies this`rectStart, this`rectEnd, this`labelZeroX, this`labelZeroY, this`layers
      ensures Valid()
      ensures old(NoDuplicates()) ==> NoDuplicates()
      ensures rectStart.None? && rectEnd.None?
      ensures labelZeroX == Lowered(old(labelZeroX), c.x) && labelZeroY == Lowered(old(labelZeroY), c.y)
      ensures layers == SetPoints(SetPoints(old(layers), SPACES,
                                            Committed(old(layers)[SPACES].points, old(rectStart), old(rectEnd))),
                                  MOUSE, [])
    {
      var before := layers;
      var spaces := CommitRectangle(before[SPACES].points, rectStart, rectEnd);
      var committed := SetPoints(before, SPACES, spaces);
      if forall j :: 0 <= j < |before| ==> Distinct(before[j].points) {
        SetPointsKeepsDistinct(before, SPACES, spaces);
        SetPointsKeepsDistinct(committed, MOUSE, []);
      }
      labelZeroX, labelZeroY := Lowered(labelZeroX, c.x), Lowered(labelZeroY, c.y);
      rectStart, rectEnd := None, None;
      layers := SetPoints(committed, MOUSE, Preview(None, None));
    }

    /**
     * The relocation shared by `movement` and an open edit panel: the selected
     * creature moves to `c` when `c` is free on the creature layer, and the
     * selection follows it; otherwise nothing changes.
     */
    method MoveSelected(c: Coordinates)
      requires Valid() && selected.Some?
      modifies this`layers, this`selected
      ensures Valid()
      ensures old(NoDuplicates()) ==> NoDuplicates()
      ensures var players, sel := old(layers)[PLAYERS].points, old(selected).value;
        && layers == SetPoints(old(layers), PLAYERS, Relocated(players, sel.coordinates, c))
        && selected == Some(SelectionMoved(players, sel, c))
    {
      var players := layers[PLAYERS].points;
      var i := IndexOfCell(players, selected.value.coordinates);
      if i >= 0 {
        var absent := CellDoesNotExist(players, c);
        if absent {
          var moved := players[i].(coordinates := c);
          players := players[i := moved];
          selected := Some(moved);
        }
        layers := SetPoints(layers, PLAYERS, players);
      }
      if old(NoDuplicates()) {
        RelocatedDistinct(old(layers)[PLAYERS].points, old(selected).value.coordinates, c);
      }
    }

    /**
     * `handlePossibleSelect`, a click under `movement`: on the selected cell it
     * deselects; on a creature it selects a copy of the first creature there;
     * on an empty cell with a selection it moves the selected creature there.
     */
    method HandlePossibleSelect(c: Coordinates)
      requires Valid() && tool == Movement
      modifies this`layers, this`selected
      ensures Valid()
      ensures old(NoDuplicates()) ==> NoDuplicates()
      ensures var players := old(layers)[PLAYERS].points;
        && (old(selected).Some? && old(selected).value.coordinates == c ==>
              selected.None? && layers == old(layers))
        && (!(old(selected).Some? && old(selected).value.coordinates == c) && Occupied(players, c) ==>
              selected == Some(players[FirstAt(players, c)]) && layers == old(layers))
        && (!(old(selected).Some? && old(selected).value.coordinates == c) && !Occupied(players, c) ==>
              (old(selected).None? ==> selected.None? && layers == old(layers))
              && (old(selected).Some? ==>
                    layers == SetPoints(old(layers), PLAYERS, Relocated(players, old(selected).value.coordinates, c))
                    && selected == Some(SelectionMoved(players, old(selected).value, c))))
    {
      if selected.Some? && selected.value.coordinates == c {
        selected := None;
        return;
      }
      var cell := FindCell(layers[PLAYERS].points, c);
      if cell.Some? {
        selected := cell;
      } else if selected.Some? {
        MoveSelected(c);
      }
    }

    /**
     * `addPlayer`: with the edit panel closed the creature is placed (when the
     * cell is free) and the new cell is selected with the panel opened, even
     * when it was not placed; with the panel open the selected creature moves
     * to `c` instead.
     */
    method AddPlayer(c: Coordinates, kind: string)
      requires Valid() && tool != Movement
      modifies this`layers, this`selected, this`editOpen
      ensures Valid()
      ensures old(NoDuplicates()) ==> NoDuplicates()
      ensures !old(editOpen) ==>
        var cell := MakeCell(c, Some(kind), None);
        && layers == SetPoints(old(layers), PLAYERS, Placed(old(layers)[PLAYERS].points, cell))
        && selected == Some(cell) && editOpen
      ensures old(editOpen) ==>
        var players, sel := old(layers)[PLAYERS].points, old(selected).value;
        && layers == SetPoints(old(layers), PLAYERS, Relocated(players, sel.coordinates, c))
        && selected == Some(SelectionMoved(players, sel, c))
        && editOpen
    {
      if !editOpen {
        var cell := AddSingleCell(PLAYERS, c, Some(kind), None);
        selected := Some(cell);
        editOpen := true;
        return;
      }
      MoveSelected(c);
    }

    /** `duplicateSelectedNPC`: an npc carrying the selection's creature is placed one cell to the right when that cell is free. */
    method DuplicateSelectedNpc()
      requires Valid() && selected.Some?
      modifies this`layers
      ensures Valid()
      ensures old(NoDuplicates()) ==> NoDuplicates()
      ensures var sel := selected.value;
        var target := Coordinates(sel.coordinates.x + 1, sel.coordinates.y);
        layers == SetPoints(old(layers), PLAYERS,
                            Placed(old(layers)[PLAYERS].points, MakeCell(target, Some("npc"), sel.entity)))
    {
      var sel := selected.value;
      var target := Coordinates(sel.coordinates.x + 1, sel.coordinates.y);
      var absent := CellDoesNotExist(layers[PLAYERS].points, target);
      if absent {
        var _ := AddSingleCell(PLAYERS, target, Some("npc"), sel.entity);
      }
    }

    /**
     * `updateSelectedPlayer`: every creature on the selected cell gets the
     * edit merged into its creature, or else the new size; the selection
     * takes the updated creature or size.
     */
    method UpdateSelectedPlayer(edit: Option<PartialEntity>, width: Option<int>, height: Option<int>)
      requires Valid() && selected.Some?
      modifies this`layers, this`selected
      ensures Valid()
      ensures old(NoDuplicates()) ==> NoDuplicates()
      ensures var target := old(selected).value.coordinates;
        && layers == SetPoints(old(layers), PLAYERS, UpdatedAt(old(layers)[PLAYERS].points, target, edit, width, height))
        && selected == Some(SelectionAfter(old(layers)[PLAYERS].points, old(selected).value, edit, width, height))
    {
      var players := layers[PLAYERS].points;
      var updated, selection := UpdatePlayers(players, selected.value, edit, width, height);
      selected := Some(selection);
      layers := SetPoints(layers, PLAYERS, updated);
      UpdatedAtKeepsCells(players, old(selected).value.coordinates, edit, width, height);
    }

    /**
     * A click on a drawn creature: under `single-player` or `single-npc` a
     * copy of the point it draws is selected and the edit panel opens. `p`
     * is the layer's point; the creature's component holds it without its
     * `type` and with the facing defaulted to `left`.
     */
    method ClickCreature(p: Point)
      requires Valid()
      modifies this`selected, this`editOpen
      ensures Valid()
      ensures old(tool) == SinglePlayer || old(tool) == SingleNpc ==> selected == Some(AsDrawnCreature(p)) && editOpen
      ensures old(tool) != SinglePlayer && old(tool) != SingleNpc ==>
        selected == old(selected) && editOpen == old(editOpen)
    {
      if tool == SinglePlayer || tool == SingleNpc {
        selected := Some(AsDrawnCreature(p));
        editOpen := true;
      }
    }

    /** The drawing tools' click actions, dispatched on the current tool. */
    method Paint(c: Coordinates)
      requires Valid()
      modifies this`layers
      ensures Valid()
      ensures old(NoDuplicates()) ==> NoDuplicates()
      ensures layers == Painted(tool, old(layers), c)
    {
      match tool {
        case SingleWall => var _ := AddSingleCell(BARRIERS, c, Some("wall"), None);
        case SingleDoor => AddSingleDoor(c);
        case SingleObstacle => var _ := AddSingleCell(BARRIERS, c, Some("obstacle"), None);
        case Eraser => Erase(c);
        case SingleSpace => var _ := AddSingleCell(SPACES, c, None, None);
        case _ =>
      }
    }

    /**
     * `onGridClick` at cell `c`: any tool but the empty one starts a
     * paint-drag; `single-space` lowers the label origin; the tool's action
     * is then applied.
     */
    method GridClick(c: Coordinates)
      requires Valid()
      modifies this`dragging, this`labelZeroX, this`labelZeroY, this`layers
      modifies this`selected, this`editOpen, this`rectStart, this`rectEnd
      ensures Valid()
      ensures old(NoDuplicates()) ==> NoDuplicates()
      ensures dragging == (old(dragging) || tool != NoTool)
      ensures tool != RectangleSpace ==> rectStart == old(rectStart) && rectEnd == old(rectEnd)
      ensures tool != SinglePlayer && tool != SingleNpc && tool != Movement ==>
        selected == old(selected) && editOpen == old(editOpen)
      ensures tool == SingleSpace ==>
        labelZeroX == Lowered(old(labelZeroX), c.x) && labelZeroY == Lowered(old(labelZeroY), c.y)
      ensures tool != SingleSpace && tool != RectangleSpace ==>
        labelZeroX == old(labelZeroX) && labelZeroY == old(labelZeroY)
      ensures tool != RectangleSpace && tool != SinglePlayer && tool != SingleNpc && tool != Movement ==>
        layers == Painted(tool, old(layers), c)
      ensures tool == SinglePlayer || tool == SingleNpc || tool == Movement ==>
        forall i :: 0 <= i < 4 && i != PLAYERS ==> layers[i] == old(layers)[i]
      ensures tool == RectangleSpace && old(rectStart).None? ==>
        rectStart == Some(c) && rectEnd == old(rectEnd) && layers == SetPoints(old(layers), MOUSE, [])
        && labelZeroX == old(labelZeroX) && labelZeroY == old(labelZeroY)
      ensures tool == RectangleSpace && old(rectStart).Some? ==>
        rectStart.None? && rectEnd.None?
        && labelZeroX == Lowered(old(labelZeroX), c.x) && labelZeroY == Lowered(old(labelZeroY), c.y)
        && layers == SetPoints(SetPoints(old(layers), SPACES,
                                         Committed(old(layers)[SPACES].points, old(rectStart), old(rectEnd))),
                               MOUSE, [])
      ensures (tool == SinglePlayer || tool == SingleNpc) && !old(editOpen) ==>
        var cell := MakeCell(c, Some(if tool == SinglePlayer then "player" else "npc"), None);
        && layers == SetPoints(old(layers), PLAYERS, Placed(old(layers)[PLAYERS].points, cell))
        && selected == Some(cell) && editOpen
      ensures (tool == SinglePlayer || tool == SingleNpc) && old(editOpen) ==>
        var players, sel := old(layers)[PLAYERS].points, old(selected).value;
        && layers == SetPoints(old(layers), PLAYERS, Relocated(players, sel.coordinates, c))
        && selected == Some(SelectionMoved(players, sel, c))
        && editOpen
      ensures tool == Movement ==>
        var players, onSelected := old(layers)[PLAYERS].points, old(selected).Some? && old(selected).value.coordinates == c;
        && editOpen == old(editOpen)
        && (onSelected ==> selected.None? && layers == old(layers))
        && (!onSelected && Occupied(players, c) ==> selected == Some(players[FirstAt(players, c)]) && layers == old(layers))
        && (!onSelected && !Occupied(players, c) && old(selected).None? ==> selected.None? && layers == old(layers))
        && (!onSelected && !Occupied(players, c) && old(selected).Some? ==>
              layers == SetPoints(old(layers), PLAYERS, Relocated(players, old(selected).value.coordinates, c))
              && selected == Some(SelectionMoved(players, old(selected).value, c)))
    {
      if tool != NoTool {
        dragging := true;
      }
      if tool == SingleSpace {
        labelZeroX := Lowered(labelZeroX, c.x);
        labelZeroY := Lowered(labelZeroY, c.y);
      }
      ApplyTool(c);
    }

    /** The tool switch of `onGridClick`. */
    method ApplyTool(c: Coordinates)
      requires Valid()
      modifies this`labelZeroX, this`labelZeroY, this`layers
      modifies this`selected, this`editOpen, this`rectStart, this`rectEnd
      ensures Valid()
      ensures old(NoDuplicates()) ==> NoDuplicates()
      ensures tool != RectangleSpace ==>
        rectStart == old(rectStart) && rectEnd == old(rectEnd)
        && labelZeroX == old(labelZeroX) && labelZeroY == old(labelZeroY)
      ensures tool != SinglePlayer && tool != SingleNpc && tool != Movement ==>
        selected == old(selected) && editOpen == old(editOpen)
      ensures tool != RectangleSpace && tool != SinglePlayer && tool != SingleNpc && tool != Movement ==>
        layers == Painted(tool, old(layers), c)
      ensures tool == SinglePlayer || tool == SingleNpc || tool == Movement ==>
        forall i :: 0 <= i < 4 && i != PLAYERS ==> layers[i] == old(layers)[i]
      ensures tool == RectangleSpace && old(rectStart).None? ==>
        rectStart == Some(c) && rectEnd == old(rectEnd) && layers == SetPoints(old(layers), MOUSE, [])
        && labelZeroX == old(labelZeroX) && labelZeroY == old(labelZeroY)
      ensures tool == RectangleSpace && old(rectStart).Some? ==>
        rectStart.None? && rectEnd.None?
        && labelZeroX == Lowered(old(labelZeroX), c.x) && labelZeroY == Lowered(old(labelZeroY), c.y)
        && layers == SetPoints(SetPoints(old(layers), SPACES,
                                         Committed(old(layers)[SPACES].points, old(rectStart), old(rectEnd))),
                               MOUSE, [])
      ensures (tool == SinglePlayer || tool == SingleNpc) && !old(editOpen) ==>
        var cell := MakeCell(c, Some(if tool == SinglePlayer then "player" else "npc"), None);
        && layers == SetPoints(old(layers), PLAYERS, Placed(old(layers)[PLAYERS].points, cell))
        && selected == Some(cell) && editOpen
      ensures (tool == SinglePlayer || tool == SingleNpc) && old(editOpen) ==>
        var players, sel := old(layers)[PLAYERS].points, old(selected).value;
        && layers == SetPoints(old(layers), PLAYERS, Relocated(players, sel.coordinates, c))
        && selected == Some(SelectionMoved(players, sel, c))
        && editOpen
      ensures tool == Movement ==>
        var players, onSelected := old(layers)[PLAYERS].points, old(selected).Some? && old(selected).value.coordinates == c;
        && editOpen == old(editOpen)
        && (onSelected ==> selected.None? && layers == old(layers))
        && (!onSelected && Occupied(players, c) ==> selected == Some(players[FirstAt(players, c)]) && layers == old(layers))
        && (!onSelected && !Occupied(players, c) && old(selected).None? ==> selected.None? && layers == old(layers))
        && (!onSelected && !Occupied(players, c) && old(selected).Some? ==>
              layers == SetPoints(old(layers), PLAYERS, Relocated(players, old(selected).value.coordinates, c))
              && selected == Some(SelectionMoved(players, old(selected).value, c)))
    {
      if tool == RectangleSpace {
        HandleRectangleClick(c);
      } else if tool == SinglePlayer {
        AddPlayer(c, "player");
      } else if tool == SingleNpc {
        AddPlayer(c, "npc");
      } else if tool == Movement {
        HandlePossibleSelect(c);
      } else {
        Paint(c);
      }
    }

    /**
     * `onGridMouseMove` over cell `c`. While a rectangle is anchored the end
     * corner follows the mouse, updated (with the preview) only when the
     * cell changes. Otherwise, during a paint-drag over a new cell, the label
     * origin is lowered, `single-wall`, `eraser` and `single-space` repeat
     * their action there, and the cell is remembered.
     */
    method GridMouseMove(c: Coordinates)
      requires Valid()
      modifies this`rectEnd, this`layers, this`labelZeroX, this`labelZeroY, this`recentCell
      ensures Valid()
      ensures old(NoDuplicates()) ==> NoDuplicates()
      ensures old(rectStart).Some? ==>
        rectEnd == Some(c) && recentCell == old(recentCell)
        && labelZeroX == old(labelZeroX) && labelZeroY == old(labelZeroY)
        && (old(rectEnd) == Some(c) ==> layers == old(layers))
        && (old(rectEnd) != Some(c) ==> layers == SetPoints(old(layers), MOUSE, Preview(rectStart, rectEnd)))
      ensures old(rectStart).None? && old(dragging) && old(recentCell) != Some(c) ==>
        rectEnd == old(rectEnd) && recentCell == Some(c)
        && labelZeroX == Lowered(old(labelZeroX), c.x) && labelZeroY == Lowered(old(labelZeroY), c.y)
        && (tool == SingleWall || tool == Eraser || tool == SingleSpace ==> layers == Painted(tool, old(layers), c))
        && (tool != SingleWall && tool != Eraser && tool != SingleSpace ==> layers == old(layers))
      ensures old(rectStart).None? && (!old(dragging) || old(recentCell) == Some(c)) ==>
        rectEnd == old(rectEnd) && recentCell == old(recentCell) && layers == old(layers)
        && labelZeroX == old(labelZeroX) && labelZeroY == old(labelZeroY)
    {
      if rectStart.Some? {
        if rectEnd != Some(c) {
          rectEnd := Some(c);
          layers := SetPoints(layers, MOUSE, Preview(rectStart, rectEnd));
        }
      } else if dragging {
        if recentCell != Some(c) {
          labelZeroX := Lowered(labelZeroX, c.x);
          labelZeroY := Lowered(labelZeroY, c.y);
          if tool == SingleWall || tool == Eraser || tool == SingleSpace {
            Paint(c);
          }
          recentCell := Some(c);
        }
      }
    }

    /** `onGridDragEnd`: any tool ends the paint-drag. */
    method GridDragEnd()
      modifies this`dragging
      ensures dragging == (old(dragging) && old(tool) == NoTool)
    {
      if tool != NoTool {
        dragging := false;
      }
    }

    /** `changeZoom(step)`: the step is taken only when the zoom stays strictly between 0 and 5.5. */
    method ChangeZoom(step: real)
      requires Valid()
      modifies this`zoom
      ensures Valid()
      ensures zoom == StepZoom(old(zoom), step)
    {
      zoom := StepZoom(zoom, step);
    }
  }
}
