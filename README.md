# gridsly grid editor in Dafny

gridsly is a browser editor for tabletop-game maps. A map is a grid of cells
held as named layers. Each layer is an ordered list of points: a cell's
coordinates, its size, an optional type (`wall`, `door`, `obstacle`,
`player`, `npc`, `mouse-select`; no type means a floor tile), the facing of a
door, and the creature standing there.

This project models the editing engine and proves what it promises.

- **Layers.** Both editors use the same scans: the free-cell test, first-match
  lookup, first-match removal, placement that never overwrites, and the
  two-click rectangle. The rectangle has a bounding-box preview and a commit
  that fills only the missing cells of the box.
- **Four-layer editor** (`components/Map/Map.tsx`). The layers are SPACES,
  BARRIERS, PLAYERS and MOUSE. The editor adds a door-facing cycle, top-down
  erasing, and creatures: place, select, relocate, duplicate, update. Tools
  are dispatched on click and on paint-drag. Each map slot is saved in the
  browser's key-value storage under its own keys, and is written only when
  its hash changes.
- **Three-layer editor** (`pages/components/Map/Map.tsx`). This older variant
  is the one the home page mounts. It handles floor tiles only, and its
  preview layer always equals the overlay of the current corners.
- **Tiles** (`components/Point.tsx`). The column letters repeat every 31
  columns. A floor tile's label is its letter followed by its row number.
  The shape drawn depends on the type, and a door is drawn as a strip.
- **Colours** (`_vars.tsx`). Black or white text is chosen for a creature's
  colour, with JavaScript's `parseInt(·, 16)` modelled in full.

Files:

| file | module | what it holds |
|---|---|---|
| `option.dfy` | `Wrappers` | `Option` |
| `colors.dfy` | `Colors` | cell scalar, hex parsing, text colour |
| `points.dfy` | `Points` | point datatypes, `charAt`, labels, shape dispatch, door strip |
| `cells.dfy` | `Cells` | layer scans, placement, erasing one point, rectangle geometry and commit, default floor, zoom step |
| `editor.dfy` | `Editor` | four-layer editor: layer specs and `MapEditor` |
| `legacy.dfy` | `LegacyEditor` | three-layer editor: `LegacyMap` |

Each React event handler is one method of the editor class, and it runs as
one step. The effects the source triggers on a state change are folded into
the handler that makes the change:

- the rectangle preview, which runs when the corners change;
- the reset when the tool changes.

The persist effect is its own method (`Persist`). In the source it runs when
a handler replaces the layer array or the slot changes. The handlers that
replace the array are:

- placing a tile, wall, obstacle or creature on a free cell;
- a door click;
- an erase;
- the rectangle commit;
- moving or updating a creature;
- loading a slot.

The rectangle preview and the tool reset change MOUSE inside the same array
and are not followed by a save. `Persist` called after them would store a
preview that the source does not store at that moment. `Persist` writes only
when the hash differs.

A layer with no two points on the same cell is preserved by every mutator
(`NoDuplicates`). The four-layer editor states this as "preserved if it held
before", because a map loaded from storage may break it. In the three-layer
editor it is part of the class invariant, together with "MOUSE is the preview
of the corners".

### Quirks of the source the model keeps

The model follows the code in each case:

- The rectangle commit uses the last end corner the mouse-move recorded, not
  the cell of the second click. If the mouse never moved, the second click
  adds nothing and still clears both corners.
- `addSingleDoor` turns the first BARRIERS point at the cell whatever its
  type, so clicking a wall with the door tool gives the wall a facing.
- Clicking a drawn creature selects it only under `single-player` or
  `single-npc`, not under `movement`. Under `movement` the stage's click
  handler does the selecting.
- A loaded map's text, not its digest, is recorded as the hash. A stored map
  is JSON and so never equals a lowercase hex digest (`TextIsNeverADigest`),
  so the first save after a load always rewrites the slot.
- `selectMapToEdit` reads the suffixed key only for a positive slot number,
  while the save writes the suffixed key for any non-zero slot. The two
  agree for every slot number from 0 up (`ReadKeyMatchesSlotKey`).
- The four-layer editor lowers the label origin on a `single-space` click,
  on a drag-paint cell, and on the second rectangle click (with that click's
  cell). The three-layer editor lowers it on every click.

## Model

| member | source | states |
|---|---|---|
| Colors.TextColorForBackground | _vars.tsx:3-10 | the answer is always `#000000` or `#FFFFFF`; black only when all three channels parse |
| Colors.TwoDigitParse | _vars.tsx:5-7 | `parseInt` (`ParseIntHex`) of two hexadecimal digits in base 16 is their two-digit value |
| Colors.ChannelOfDigits | _vars.tsx:5-7 | a channel read from two hex digits at positions i, i+1 is 16·d1 + d2 |
| Colors.WellFormedChannel | _vars.tsx:5-7 | each channel of a `#RRGGBB` colour is read from its two digits and lies in [0, 255] |
| Colors.BlackIffBright | _vars.tsx:4-9 | for a well-formed colour the answer is black exactly when 0.299r + 0.587g + 0.114b > 149 (as 299r + 587g + 114b > 149000) |
| Colors.WhiteGetsBlackText | _vars.tsx:9 | a `#FFFFFF` background gets black text |
| Colors.BlackGetsWhiteText | _vars.tsx:9 | a `#000000` background gets white text |
| Colors.BrighterStaysBlack | _vars.tsx:9 | raising any channel never turns a black answer white |
| Colors.NoDigitsIsNaN | _vars.tsx:5-7 | `ParseIntHex` of text whose first character is neither blank, a sign nor a hex digit (such as "undefined" or "NaN") parses as NaN |
| Colors.NaNTextIsNaN | _vars.tsx:5-7 | past the end of the string `undefined + undefined` is the number NaN, and `parseInt` of its text "NaN" is NaN, as `Channel` reads it |
| Colors.ShortGetsWhiteText | _vars.tsx:7-9 | a colour string shorter than six characters reads its blue channel as NaN, so it gets white text |
| Colors.OneDigitParse | _vars.tsx:5-7 | `parseInt` of a hex digit followed by a non-digit (not a `0x` prefix) stops after that digit |
| Colors.TrailingDigitReadsAlone | _vars.tsx:5-7 | a channel whose first character is the string's last and a hex digit is that digit's value: `parseInt` stops at the "undefined" after it |
| Points.Letter | components/Point.tsx:12-20 | a column letter exists exactly for non-negative indices |
| Points.CharAt | components/Point.tsx:13-20 | the subtracting loop returns `ABCS[i mod 31]` for i ≥ 0 and undefined for i < 0 |
| Points.LettersDistinct | components/Point.tsx:12 | the 31 letters of ABCS are pairwise different |
| Points.LetterPeriodic | components/Point.tsx:11-20 | letters repeat with period 31 |
| Points.NatToDecimal | components/Point.tsx:184-186 | the printed row number is a non-empty digit string without a leading zero |
| Points.NatDecimalRoundTrip | components/Point.tsx:184-186 | reading back a printed natural number gives the number |
| Points.IntDecimalRoundTrip | components/Point.tsx:184-186 | reading back a printed integer (with its minus sign) gives the integer |
| Points.IntToDecimalInjective | components/Point.tsx:184-186 | different row numbers print differently |
| Points.SpaceLabelLetter | components/Point.tsx:183-186 | a floor label (`SpaceLabel`) starts with `charAt(x + abs(labelZeroX))` |
| Points.SpaceLabelRow | components/Point.tsx:183-186 | the rest of a floor label (`SpaceLabel`) is the decimal of `y + abs(labelZeroY)` |
| Points.SpaceLabelsDistinct | components/Point.tsx:183-186 | two different cells within one 31-column period have different labels |
| Points.ShapeOf | components/Point.tsx:57-157 | no type draws a space; a door draws iff the type is `door`, facing `left` by default; a creature iff `player`/`npc`; unknown types draw spaces |
| Points.AsDrawnCreature | components/Point.tsx:57-65 | the point a creature's component receives (built at 126-140) keeps the cell, size and creature, has no type, and has the facing defaulted to `left` |
| Points.DoorStrip | components/Point.tsx:199-222 | left/right: a quarter of the width at full height, flush with that side; top/bottom: a quarter of the height at full width, flush with that side; otherwise the full cell; always inside the cell |
| Cells.FirstAt | components/Map/Map.tsx:87-95 | the first index at c, or -1 exactly when no point is at c |
| Cells.CellDoesNotExist | components/Map/Map.tsx:77-85 | the scan answers true iff no point has coordinates c (the three-layer editor's copy at pages/components/Map/Map.tsx:55-63 is the same) |
| Cells.FindCell | components/Map/Map.tsx:87-95 | the scan returns the first point at c, or nothing exactly when there is none |
| Cells.IndexOfCell | components/Map/Map.tsx:351-363 | the index loop stops at the first point at c, or gives -1 |
| Cells.WithoutFirst | components/Map/Map.tsx:97-106 | removal shortens the layer by one iff c is occupied, else leaves it unchanged |
| Cells.WithoutFirstKeepsOthers | components/Map/Map.tsx:97-106 | only the first point at c is removed; the others keep their order (as a multiset, the removed point goes); a layer without duplicates then has c free |
| Cells.EraseCell | components/Map/Map.tsx:97-106 | the splice loop computes `WithoutFirst` |
| Cells.Placed | components/Map/Map.tsx:309-316 | the cell is appended only when its coordinates are free, else the layer is unchanged |
| Cells.PlacedOnce | components/Map/Map.tsx:309-316 | after placing, the cell is occupied; placing twice equals placing once and leaves exactly one point there; no duplicate is created |
| Cells.DistinctCountAt | components/Map/Map.tsx:309-316 | in a layer without duplicates every cell holds exactly one point or none |
| Cells.Bounds | components/Map/Map.tsx:461-472 | the box holds both corners and exactly the cells between them on both axes |
| Cells.BoundsSymmetric | components/Map/Map.tsx:461-472 | the box does not depend on the order of the corners |
| Cells.Preview | components/Map/Map.tsx:234-261 | MOUSE holds one `mouse-select` point with the corners' bounding box while both corners are set, and nothing otherwise (the same in pages/components/Map/Map.tsx:111-132) |
| Cells.FillExact | components/Map/Map.tsx:458-498 | after a commit a cell is occupied iff it was before or lies in the box; each added tile is a 1x1 space on a previously free cell; no duplicate is created |
| Cells.FillIdempotent | components/Map/Map.tsx:458-498 | committing the same box again adds nothing |
| Cells.MissingCells | components/Map/Map.tsx:474-491 | the nested loops push exactly the free cells of the box, column by column |
| Cells.Committed | components/Map/Map.tsx:458-498 | with a corner missing the floor is unchanged; otherwise the old floor is kept as a prefix and the box's missing cells are appended after it; no duplicate is created |
| Cells.CommittedExact | components/Map/Map.tsx:458-498 | with both corners set, a cell is occupied after the commit iff it was before or lies in the box; every appended tile is a 1x1 space on a box cell that was free |
| Cells.CommittedSymmetric | components/Map/Map.tsx:458-498 | the commit is symmetric in the corners |
| Cells.CommittedIdempotent | components/Map/Map.tsx:458-498 | repeating a commit adds nothing |
| Cells.CommitRectangle | components/Map/Map.tsx:458-498 | the commit step computes `Committed` (also the three-layer editor's, pages/components/Map/Map.tsx:163-192) |
| Cells.SquareCells | components/Map/Map.tsx:39-75 | the default floor has size·size 1x1 spaces, one on every cell of [0, size)², none elsewhere, none twice |
| Cells.SquareSpaces | components/Map/Map.tsx:62-72 | the nested loops build that floor |
| Cells.StepZoom | components/Map/Map.tsx:648-652 | a zoom step is taken iff the result is strictly between 0 and 5.5, so the zoom stays in (0, 5.5) |
| Cells.ZoomOnQuarterGrid | pages/components/MapControls.tsx:52-53 | from 0.5 with ±0.25 steps, stepping the zoom is stepping a whole number of quarters kept in 1..21 |
| Editor.TestGrid | components/Map/Map.tsx:39-75 | four layers, the floor is the size x size square, the other layers are empty |
| Editor.TestGridCells | components/Map/Map.tsx:39-75 | the default grid has no duplicates and its floor covers exactly [0, size)² |
| Editor.GenerateTestGrid | components/Map/Map.tsx:39-75 | the builder produces `TestGrid(size)`, with no duplicates |
| Editor.RotatePosition | components/Map/Map.tsx:108-121 | the result is always one of the four facings; a missing or unknown facing becomes `left`; a known facing always changes |
| Editor.RotateFourTimes | components/Map/Map.tsx:108-121 | four quarter turns are the identity on the four facings |
| Editor.WithDoor | components/Map/Map.tsx:333-368 | a free cell gets a new left-facing door appended; an occupied cell keeps the layer length |
| Editor.WithDoorTurns | components/Map/Map.tsx:346-364 | on an occupied cell only the first barrier there is turned, whatever its type; all cells stay put |
| Editor.WithDoorDistinct | components/Map/Map.tsx:333-368 | the door click never creates a duplicate |
| Editor.DoorClicksCycle | components/Map/Map.tsx:346-364 | four further door clicks on a door cell restore the barrier layer |
| Editor.MakeCell | components/Map/Map.tsx:277-307 | a 1x1 cell of the given type; a player gets PLAYER/#000000/@/player, an npc a copy of the override or NPC/#805ad5/>/npc, other types no creature |
| Editor.MergeLaws | components/Map/Map.tsx:662-663 | for `Merge`, the spread `{ ...entity, ...edit }`: merging an empty edit changes nothing, merging twice equals once, and each of name, colour, symbol and type is kept when the edit lacks it and replaced when it carries it |
| Editor.Relocated | components/Map/Map.tsx:385-411 | a move keeps the layer length and changes nothing when nothing is at the source or the target is occupied |
| Editor.RelocatedMoves | components/Map/Map.tsx:427-453 | a move to a free cell moves exactly the first point at the source there; the source is then empty and no duplicate appears |
| Editor.RelocatedDistinct | components/Map/Map.tsx:385-411 | relocation never creates a duplicate |
| Editor.SelectionMoved | components/Map/Map.tsx:396-402 | after a move the selection is a copy of the moved point as it now stands in the layer, on the target cell; with no move it is unchanged |
| Editor.UpdatePoint | components/Map/Map.tsx:658-679 | an update merges the edit into an existing creature, else applies a set non-zero width and height, else nothing; the cell never changes |
| Editor.UpdatedAt | components/Map/Map.tsx:657-683 | only points on the selected cell are updated; the others are unchanged |
| Editor.UpdatePlayers | components/Map/Map.tsx:657-680 | the `map` over the creature layer computes `UpdatedAt`, and the selection it tracks is `SelectionAfter` |
| Editor.UpdatedAtKeepsCells | components/Map/Map.tsx:657-683 | an update moves no point, so occupancy and the absence of duplicates are kept |
| Editor.SelectionAfter | components/Map/Map.tsx:664-675 | the selection keeps its cell, type and facing after an update |
| Editor.SelectionMirrorsPoint | components/Map/Map.tsx:657-683 | in a layer without duplicates the selection takes the updated point's creature, or its new size |
| Editor.EraseRemovesOne | components/Map/Map.tsx:500-514 | erasing removes one point in total iff some layer holds c, from the topmost such layer only, all other layers untouched, no duplicate created |
| Editor.TopmostAt | components/Map/Map.tsx:502-510 | the highest layer holding c, with none above it holding c |
| Editor.SlotKey | components/Map/Map.tsx:183-195 | slot 0 writes under the base key; any other slot under a longer key that starts with the base key |
| Editor.SlotKeysDistinct | components/Map/Map.tsx:183-195 | different slots never share a key |
| Editor.KeyFamiliesDisjoint | components/Map/Map.tsx:183-195 | a layers key is never a hash key |
| Editor.ReadKeyMatchesSlotKey | components/Map/Map.tsx:699-704 | `ReadKey`, the key `selectMapToEdit` reads: slots from 0 up are read from the key they are written to; a negative slot reads slot 0's key |
| Editor.HexPair | components/Map/Map.tsx:128 | each byte becomes two characters |
| Editor.HexJoin | components/Map/Map.tsx:126-129 | the digest text has two lowercase hex digits per byte |
| Editor.HexJoinRoundTrip | components/Map/Map.tsx:126-129 | the hex text reads back to the digest bytes |
| Editor.TextIsNeverADigest | components/Map/Map.tsx:171 | a recorded map text (JSON) never equals a digest, so the next save writes |
| Editor.ReadSlot | components/Map/Map.tsx:168-176 | a slot is used only when present and non-empty; parsed text yields its grid and text, other text is reported unparsable |
| Editor.Painted | components/Map/Map.tsx:609-638 | the drawing tools' effect on the grid (laws in `PaintedFacts`); any tool other than `single-space`, `single-wall`, `single-obstacle`, `single-door` and `eraser` leaves it alone |
| Editor.PaintedFacts | components/Map/Map.tsx:609-638 | drawing never creates a duplicate and never touches PLAYERS except when erasing; a placing tool leaves its cell occupied; re-applying a placing tool changes nothing |
| Editor.Lowered | components/Map/Map.tsx:599-606 | the label origin only moves down, to the clicked coordinate |
| Editor.MapEditor.constructor | components/Map/Map.tsx:137-160 | the default grid, tool `single-space`, panel closed, no selection, no corners, no drag, label origin 0, zoom 0.5, slot 0, no hash; no layer holds a cell twice |
| Editor.MapEditor.LoadStored | components/Map/Map.tsx:165-177 | on mount (no corner set yet), slot 0's parsed text becomes the grid and its text the hash; unparsable text gives the default grid; a missing or empty slot keeps the grid; in every case the preview effect's first run (234-261, no corner set) then leaves MOUSE empty |
| Editor.MapEditor.Persist | components/Map/Map.tsx:179-201 | the text and hash are written under the current slot's keys only when the hash differs, and the hash is recorded |
| Editor.MapEditor.SelectMapToEdit | components/Map/Map.tsx:696-721 | nothing for the current slot; otherwise the slot's grid, or the default grid when missing, empty or unparsable; the slot number is then `num` |
| Editor.MapEditor.SelectTool | components/Map/Map.tsx:227-232 | a different tool clears both corners and the preview, closes the panel and forgets the last painted cell |
| Editor.MapEditor.AddSingleCell | components/Map/Map.tsx:270-331 | returns the built cell even when not placed; the layer gains it only on a free cell |
| Editor.MapEditor.AddSingleDoor | components/Map/Map.tsx:333-368 | the barrier layer becomes `WithDoor` |
| Editor.MapEditor.Erase | components/Map/Map.tsx:500-514 | the descending loop with its break computes `Erased` |
| Editor.MapEditor.HandleRectangleClick | components/Map/Map.tsx:516-536 | the first click sets only the start corner; the second lowers the label origin to its cell, commits with the recorded end and clears both corners and the preview |
| Editor.MapEditor.FinishRectangle | components/Map/Map.tsx:521-533 | the second click lowers the label origin to its cell, commits with the recorded corners, clears both corners and the preview, and creates no duplicate |
| Editor.MapEditor.MoveSelected | components/Map/Map.tsx:385-411 | the selected creature moves to a free cell and the selection becomes the moved point (`SelectionMoved`); otherwise nothing changes |
| Editor.MapEditor.HandlePossibleSelect | components/Map/Map.tsx:370-413 | clicking the selected cell deselects it; a creature cell selects a copy of its first creature; an empty cell moves the selected creature there and the selection follows it; with nothing selected an empty cell changes nothing |
| Editor.MapEditor.AddPlayer | components/Map/Map.tsx:415-456 | with the panel closed the creature is placed if the cell is free, selected and the panel opened even if not placed; with the panel open the selected creature is moved and the selection follows it |
| Editor.MapEditor.DuplicateSelectedNpc | components/Map/Map.tsx:723-737 | an npc carrying the selection's creature is placed at (x+1, y) only when that cell is free |
| Editor.MapEditor.UpdateSelectedPlayer | components/Map/Map.tsx:654-688 | the loop updates exactly the points on the selected cell and updates the selection to match |
| Editor.MapEditor.ClickCreature | components/Point.tsx:269-283 | under `single-player`/`single-npc` a copy of the drawn point (no type, facing defaulted to `left`) is selected and the panel opens; under any other tool nothing changes |
| Editor.MapEditor.Paint | components/Map/Map.tsx:609-638 | the tool switch computes `Painted` |
| Editor.MapEditor.GridClick | components/Map/Map.tsx:588-639 | any tool but the empty one starts a drag; `single-space` lowers the label origin; each tool then has its handler's outcome: the rectangle gesture's anchor or commit, `addPlayer` with kind `player` or `npc`, `handlePossibleSelect` under `movement`, `Painted` for the drawing tools; no duplicate is created |
| Editor.MapEditor.ApplyTool | components/Map/Map.tsx:609-638 | the tool switch: `rectangle-space` anchors or commits the rectangle; `single-player` and `single-npc` place and select a creature of that kind, or move the selection with the panel open; `movement` deselects, selects or moves; every other tool gives `Painted`; only the rectangle touches corners and labels, only the creature tools the selection; no duplicate is created |
| Editor.MapEditor.GridMouseMove | components/Map/Map.tsx:538-586 | while anchored the end corner and the preview update only when the cell changes; during a drag over a new cell `single-wall`, `eraser`, `single-space` repeat and the cell is recorded; otherwise nothing changes |
| Editor.MapEditor.GridDragEnd | components/Map/Map.tsx:690-694 | any tool but the empty one ends the drag; with the empty tool nothing changes |
| Editor.MapEditor.ChangeZoom | components/Map/Map.tsx:648-652 | the zoom becomes `StepZoom` and stays in (0, 5.5) |
| LegacyEditor.LegacyGrid | pages/components/Map/Map.tsx:23-53 | three layers (SPACES, BARRIERS, MOUSE), the floor is the size x size square |
| LegacyEditor.GenerateLegacyGrid | pages/components/Map/Map.tsx:23-53 | the builder produces `LegacyGrid(size)`, with no duplicates |
| LegacyEditor.LegacyMap.constructor | pages/components/Map/Map.tsx:66-81 | the default grid, no tool, zoom 0.5, no corners; the invariant holds |
| LegacyEditor.LegacyMap.SelectTool | pages/components/Map/Map.tsx:134-136 | only the tool changes |
| LegacyEditor.LegacyMap.AddSingleSpace | pages/components/Map/Map.tsx:145-161 | a floor tile is appended only on a free cell; otherwise the floor is unchanged |
| LegacyEditor.LegacyMap.HandleRectangleClick | pages/components/Map/Map.tsx:194-203 | the first click sets the start corner; the second commits with the recorded end and clears both corners |
| LegacyEditor.LegacyMap.GridClick | pages/components/Map/Map.tsx:216-238 | every click lowers the label origin; `single-space` places a tile and drops a pending rectangle; `rectangle-space` anchors the start corner or commits the box and clears both corners; other tools change nothing |
| LegacyEditor.LegacyMap.GridMouseMove | pages/components/Map/Map.tsx:205-214 | the end corner follows the mouse only while anchored and only when the cell changes; the preview stays the overlay of the corners |
| LegacyEditor.LegacyMap.ChangeZoom | pages/components/Map/Map.tsx:247-249 | the zoom becomes `StepZoom` and stays in (0, 5.5) |

## Left out

- SHA-256 (FIPS 180-4), `JSON.stringify` and `JSON.parse` are function parameters of `Persist`, `LoadStored` and `SelectMapToEdit`. The async ordering of digests in the persist effect is not modelled, nor the save of the first render's grid racing the mount load.
- Editor.ReadSlot: the model's parser returns a four-layer grid or nothing. In the source, a parse result of `null`, or an array shorter than four, throws at mount, when the preview effect's first run assigns to its MOUSE layer (components/Map/Map.tsx:234-260). After `selectMapToEdit`, `null` throws at the next render (770). Only a short array loaded by `selectMapToEdit` survives until the next edit or preview run touches a missing layer.
- Pixel-to-grid conversion (`mousePosOnGrid`, `getBoundingClientRect`) is left out. Handlers take the grid cell as input.
- Rendering, scrolling, resizing, the Konva stage and PNG export are left out.
- React scheduling is left out: each handler is one atomic step, and stale `useCallback` dependencies are ignored. The relative order of a creature's click and the stage's mouse-down for the same click is not modelled.
- The selection highlight compares objects by reference. It is not modelled.
- Points and layers are values, so the source's in-place writes into the previous grid's objects are not modelled, only the new layer each handler yields. These are: the field assignments of `updateSelectedPlayer` (components/Map/Map.tsx:663, 669-670), the door rotation of `addSingleDoor` (356), the relocations of `handlePossibleSelect` and `addPlayer` (396, 438), and the preview effect's writes to MOUSE (254, 257). The selection is always a spread copy and shares no point object with the grid.
- Zoom and pixel sizes are exact reals, not IEEE doubles. Luminance is compared exactly (`Colors.BlackIffBright`), including at the boundary 149.
- Tool names are a datatype of the ten names `components/Map/Map.tsx` itself dispatches on (568-574, 599-634); its controls (`components/MapControls.tsx:32-33`) offer only `single-space` and `rectangle-space`. Any other tool string is not modelled.
- Dafny characters are not UTF-16 code units. ABCS has 31 characters in both.
- Editor.UpdatePoint: a NaN width or height is not modelled; sizes are integers.
- Editor.MapEditor.DuplicateSelectedNpc and Editor.MapEditor.UpdateSelectedPlayer require a selection. In the source they dereference it unguarded, and they are reachable only from the open edit panel.
- `console.log` on a parse error is left out.
- Editor.MapEditor.SelectTool, Editor.MapEditor.SelectMapToEdit and Editor.MapEditor.DuplicateSelectedNpc model handlers the four-layer editor's UI does not reach: it passes no `selectTool` to its controls, whose menu items call the default no-op (components/MapControls.tsx:9-14; Map.tsx:817-823), and the controls and the player edit bar (components/PlayerEditBar.tsx:12-14) do not accept `selectMapToEdit` or `duplicateSelectedNPC` as props. They are modelled as the handlers are written.
- The player edit bar, the map controls, the page chrome and the Recoil atoms are not part of this model. The atoms' defaults are the constructor's initial state.
