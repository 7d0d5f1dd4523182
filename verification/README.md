# grid2D physics core in Dafny

A model of the sequential core of the grid2D physics engine (`World` and the
tile `Grid` body) with proofs about it. The model covers:

- **Layers** (`layers.dfy`): the layer table of a world. It has 32 named
  layer slots, with slot 0 always `"default"`. It packs one 2-bit collision
  rule per ordered pair of layer ids into 64 32-bit words. The module covers
  `addLayer`, `_getLayer`, `setLayerRule`, `_getLayerRule`, `getLayerRule`,
  `layers`, and the rule filter of `_broadphase`. The words are `bv32`, and
  JavaScript's reduction of shift counts mod 32 is written out.
  - The arithmetic `>>` of `_getLayerRule` is modelled as written
    (`...AsWritten`).
  - An unsigned read stands beside it as the evidently intended behaviour.
- **World** (`world.ts` in `world.dfy`): the clock and the time update at the
  head of `simulate`.
- **Narrowphase** (`narrowphase.dfy`): `_narrowPhase`, the swept
  axis-aligned time of impact, and `_solveOverlap`, the push-out direction.
  Both are over `real`. The body flags and the "already resting on that
  entity" tests are parameters.
- **Columns** (`columns.dfy`): the run-length column of a tile subgrid
  (`{length, shape, data}` runs over G = 120 cells). It models the column
  walk of `getTile` and the point edit of `_setTile`, both as written and
  corrected.
- **Rebuild** (`rebuild.dfy`): `_setTilesInSubGrid`. Every column in a range
  is rebuilt cell by cell from an `info` callback.
- **Grid** (`grid.dfy`): the grid of subgrids, covering `getTile`, `setTile`,
  `clearTile`, `_setTile` and `_expandGrid` on grid coordinates.
- **Lines** (`lines.dfy`): the `side` getter and setter of a `Line` body.
- **Coordinates** (`coordinates.dfy`): `localToGlobal` and `globalToLocal`
  over the chain of parent entities.

`base.dfy` holds the shared `Option` and `Result` types. JavaScript `null` and
`undefined` results are `None`. A thrown exception is `Err`.

The corrected column edit (`Columns.SetInColumn`) is the one the grid uses.
The as-written versions are kept beside it to exhibit the defects listed
under Findings.

## Model

| member | source | states |
|---|---|---|
| Layers.NewTable | src/lib/model/world.ts:36-47 | a new world registers only "default", in slot 0, leaves slots 1..31 free, and every ordered pair of ids reads code 3 (ALWAYS) |
| Layers.Decode | src/lib/model/world.ts:154-164 | the getLayerRule switch: codes 0..3 name exactly one rule each (inverse of the storage code), any other value falls through to undefined |
| Layers.SlotOf | src/lib/model/world.ts:145-153 | a second id below 16 uses word id1, otherwise word id1+32; the start bit is even and at most 30, and it is 30 exactly for second ids 15 and 23 (shift counts taken mod 32) |
| Layers.SlotOfInjective | src/lib/model/world.ts:104-121 | two different ordered pairs of ids never share a field, so ids 24..31 wrapping to bits 0..14 collide with nothing |
| Layers.StoreReadsBack | src/lib/model/world.ts:112-121 | `(w & ~(3 << b)) | (code << b)` read back with an unsigned shift gives the stored code |
| Layers.StoreFrame | src/lib/model/world.ts:104-121 | the update of one 2-bit field leaves every other even-aligned field's bits unchanged |
| Layers.FieldsAgree | src/lib/model/world.ts:145-153 | below bit 30 the sign-propagating `>>` and the unsigned read agree |
| Layers.FieldAsWrittenAtBit30 | src/lib/model/world.ts:145-153 | at bit 30 the arithmetic shift reads ALWAYS as -1 and EQUAL_GROUP as -2, and the switch then recognises neither; codes 0 and 1 read correctly |
| Layers.FirstFree | src/lib/model/world.ts:81-84 | the scan stops at the lowest free slot at or after i, or at 32 when every slot is taken |
| Layers.AddLayer | src/lib/model/world.ts:80-91 | throws exactly when slots 1..31 are all taken, leaving the table as it was; otherwise the name goes into the lowest free slot, is recorded in both `_layerIds` and `_layerNames`, and no rule word changes |
| Layers.FullAfterAdd | src/lib/model/world.ts:80-91 | after a successful addLayer the table is full exactly when the name took slot 31 |
| Layers.LayerNames | src/lib/model/world.ts:62 | `layers` lists every registered name except the empty string, which the truthiness filter drops |
| Layers.LayerNamesGrow | src/lib/model/world.ts:62-91 | a fresh world lists exactly "default", and each successful addLayer adds the new name to `layers` |
| Layers.Ensure | src/lib/model/world.ts:94-99 | an unknown name is registered and a known one leaves the table as it is; it throws only for an unknown name with every slot taken, and existing ids and rule words are kept |
| Layers.GetLayer | src/lib/model/world.ts:65-79 | returns the id the name now has, registering it first if needed; the `return 0` fallback cannot be reached |
| Layers.WriteField | src/lib/model/world.ts:104-121 | after the write, the (id1, id2) field holds the rule's code |
| Layers.WriteFieldFrame | src/lib/model/world.ts:104-121 | writing the (id1, id2) field leaves the bits of every other ordered pair untouched |
| Layers.WriteRule | src/lib/model/world.ts:101-143 | both orders (id1, id2) and (id2, id1) hold the rule's code afterwards, including when id1 == id2 and only one field is written |
| Layers.WriteRuleFrame | src/lib/model/world.ts:123-143 | every ordered pair other than the two written keeps its code |
| Layers.SetLayerRule | src/lib/model/world.ts:92-144 | registers unknown names; it throws exactly when a name is missing and no slot is left for it (or for the second of two new names); otherwise both orders of the pair hold the rule and existing ids stay put. A throw leaves the words and existing ids as they were, and keeps layer1 registered (in slot 31) when it was new and had a slot |
| Layers.AddCode | src/lib/model/world.ts:105-111 | the switch gives a rule value its 2-bit code; any other value leaves `add` undefined, which the bitwise or reads as 0 |
| Layers.SetLayerRuleArg | src/lib/model/world.ts:92-144 | setLayerRule on the argument as passed throws exactly when setLayerRule does, stores the argument's code in both fields of the pair, and is setLayerRule itself for the four rule values |
| Layers.OtherRuleReadsNever | src/lib/model/world.ts:103-121 | a rule argument that is none of the four values behaves as NEVER: getLayerRule then reads NEVER for both orders of the pair |
| Layers.SetLayerRuleFrame | src/lib/model/world.ts:92-144 | setLayerRule changes the code of no ordered pair of ids other than the two it writes |
| Layers.GetLayerRule | src/lib/model/world.ts:154-164 | with an unsigned read: NEVER for an unregistered first name; the stored code of the pair for registered names; for an unregistered second name, the bits 0-1 of word id1+32 (a NaN shift counts as 0) |
| Layers.GetLayerRuleAsWritten | src/lib/model/world.ts:145-164 | the source's read agrees with GetLayerRule unless the second layer's id is 15 or 23 |
| Layers.GetLayerRuleAsWrittenAtBit30 | src/lib/model/world.ts:145-164 | for a second layer with id 15 or 23, getLayerRule returns undefined exactly when the stored rule is ALWAYS or EQUAL_GROUP, and the right rule otherwise |
| Layers.SetThenGet | src/lib/model/world.ts:92-164 | after setLayerRule(a, b, r), getLayerRule(a, b) and getLayerRule(b, a) both return r, whatever was set before |
| Layers.AddLayerFrame | src/lib/model/world.ts:80-91 | addLayer keeps every field involving a free slot at ALWAYS, and keeps a pair that read ALWAYS at ALWAYS (a new or re-added name lands on a free slot) |
| Layers.SetLayerRulePreserves | src/lib/model/world.ts:92-144 | a setLayerRule on another pair keeps the free-slot fields and the pair (a, b) at ALWAYS |
| Layers.RunPreserves | src/lib/model/world.ts:80-144 | through any sequence of addLayer and setLayerRule calls that never names {a, b}, the pair (a, b) and every free-slot field stay ALWAYS |
| Layers.UnmentionedPairsAlways | src/lib/model/world.ts:43-47 | from a fresh world, two registered layers that no setLayerRule call names together (for example any layer and "default") read ALWAYS |
| Layers.KeepPairSwitch | src/lib/model/world.ts:569-576 | the filter keeps a pair for code 3, for code 2 with equal groups and for code 1 with unequal groups; it drops it for 0 and for any code the switch does not list |
| Layers.KeepPair | src/lib/model/world.ts:569-576 | with the unsigned read, a body pair passes the filter exactly when the stored rule admits the two groups |
| Layers.KeepPairAsWritten | src/lib/model/world.ts:569-576 | the source's filter agrees with KeepPair unless the second body's layer id is 15 or 23 |
| Layers.FreshWorldDropsLayer15 | src/lib/model/world.ts:145-153 | in a fresh world, layers 0 and 15 should collide ALWAYS, but the field reads -1 and the source's filter drops the pair |
| World.NewWorld | src/lib/model/world.ts:36-47 | a new world starts at time 0 with a valid layer table listing only "default" |
| World.Simulate | src/lib/model/world.ts:231-232 | `simulate(d)` advances the clock by exactly d and leaves the layer table alone |
| World.SetTime | src/lib/model/world.ts:60 | assigning `time` changes nothing |
| World.SimulateAllTime | src/lib/model/world.ts:231-232 | after a sequence of steps the clock reads the start time plus the sum of the steps |
| Narrowphase.ToiX | src/lib/model/world.ts:628-638 | a finite x time of impact needs differing x speeds, b1 approaching from the side it faces, both facing sides colliding and no resting contact there; at that time the facing edges touch exactly |
| Narrowphase.ToiY | src/lib/model/world.ts:640-650 | the same for y with the up and down sides |
| Narrowphase.XImpact | src/lib/model/world.ts:653-669 | an x-impact needs differing x speeds and a time in (-0.0001, delta); it lies on b1's trajectory at that time, reports side 0 exactly when x1 < x2 (else 1), the facing x edges are flush, and the y spans meet (0.000001 tolerance) |
| Narrowphase.YImpact | src/lib/model/world.ts:671-687 | a y-impact needs differing y speeds and a time in (-0.0001, delta); it lies on b1's trajectory at that time, reports side 2 exactly when y1 < y2 (else 3), the facing y edges are flush, and the x spans meet |
| Narrowphase.NarrowPhase | src/lib/model/world.ts:622-726 | null when both velocities are equal and exactly when neither axis has an impact; a result has -0.0001 < time < delta and is the x-impact (sides 0, 1) or the y-impact (sides 2, 3); the axis with the later time of impact wins whenever its own impact exists |
| Narrowphase.SwapYImpact | src/lib/model/world.ts:671-687 | the y-test is the x-test with the axes exchanged (right/up and left/down swapped, side shifted by 2) |
| Narrowphase.SwapXImpact | src/lib/model/world.ts:653-669 | the x-test is the y-test with the axes exchanged |
| Narrowphase.NarrowPhaseSwap | src/lib/model/world.ts:652-723 | exchanging the axes of the input exchanges them in the result, for every input: the y-first order on a tie makes no difference |
| Narrowphase.TieMissesBoth | src/lib/model/world.ts:652-723 | when the two times of impact are equal (a corner hit), the facing edges are flush on both axes, so neither axis passes its 0.000001 overlap gate and the result is null |
| Narrowphase.SolveOverlap | src/lib/model/world.ts:736-766 | the result is always 1..5 and never 0; 4/5/2/3 are returned only when canUp/canDown/canLeft/canRight holds; with no flag set the result is 1 (stuck) |
| Narrowphase.SolveOverlapMirrorX | src/lib/model/world.ts:738-764 | reflecting the scene left to right reflects the answer, except on a left/right tie or when both horizontal moves are allowed |
| Narrowphase.SolveOverlapTakesPreferred | src/lib/model/world.ts:744-764 | with every direction allowed the body is never stuck, and it moves vertically exactly when the vertical measure is the larger or neither measure is positive |
| Columns.Cells | src/lib/model/body.ts:466-477 | the reference meaning of a column, one tile per cell, has as many cells as the run lengths add up to |
| Columns.Locate | src/lib/model/body.ts:598-606 | the walk `while (y >= topHeight) ...; i--` stops at the run that covers cell y |
| Columns.Lookup | src/lib/model/body.ts:466-477 | the column walk of getTile returns the tile of cell y |
| Columns.BranchOf | src/lib/model/body.ts:611-635 | the branch `_setTile` takes: no change exactly when the run already holds the tile; a merge only toward an existing neighbour; a split only strictly inside a run |
| Columns.SetInColumnAsWritten | src/lib/model/body.ts:595-636 | the source's edit: a start-of-run insert puts the tile before cell y and shifts the rest up; an end-of-run insert puts it after cell y, which keeps its old tile; every other branch writes cell y |
| Columns.SetInColumn | src/lib/model/body.ts:595-636 | the corrected edit keeps a column well formed (positive runs summing to G), changes exactly cell y to the written tile, and is a no-op when the cell already holds it |
| Columns.MergePrevFixed | src/lib/model/body.ts:613-616 | merging into the run below moves one cell between neighbours and drops a run left empty |
| Columns.MergePrevAsWritten | src/lib/model/body.ts:613-616 | the source's merge writes the cell but may leave a run of length 0 |
| Columns.MergeNextAsWritten | src/lib/model/body.ts:621-624 | merging into the run above moves one cell from the current run to the next |
| Columns.InsertAsWritten | src/lib/model/body.ts:617-627 | `splice(i, 0, {length: 1, ...})` inserts one cell without shortening any run |
| Columns.SplitRun | src/lib/model/body.ts:628-635 | the mid-run split replaces one run by three with the same total and changes only cell y |
| Columns.InsertBeforeGrowsColumn | src/lib/model/body.ts:617-619 | on [A:1, B:119], writing shape 3 at cell 1 grows the source's column to 121 cells; the corrected edit changes only cell 1 |
| Columns.InsertAfterHidesWrite | src/lib/model/body.ts:625-627 | on [A:119, B:1], writing shape 3 at cell 118 leaves getTile reading A there; the corrected edit reads the new tile |
| Columns.FreshColumn | src/lib/model/body.ts:638-656 | a first write to a column builds runs summing to G with the tile at cell y and empty cells elsewhere |
| Columns.WriteSlot | src/lib/model/body.ts:595-656 | a point write to an existing or missing column leaves it well formed and changes only cell y |
| Columns.NewSubGrid | src/lib/model/body.ts:819-829 | a new subgrid has G column slots, none written, each reading as G empty cells |
| Rebuild.CursorReads | src/lib/model/body.ts:736-741 | the single-step cursor of the rebuild loop reads one tile for each of the G cells |
| Rebuild.CursorFromCells | src/lib/model/body.ts:736-741 | on a column without empty runs, the cursor reads exactly the column's cells |
| Rebuild.CursorReadsCells | src/lib/model/body.ts:728-741 | from the first cell, the cursor on a column without empty runs reads cells 0..G-1 |
| Rebuild.EmptyRunMisread | src/lib/model/body.ts:614-616 | the source's merge turns [A:1, Z:1, B:118] into [A:2, Z:0, B:118], whose cell 2 holds B while the rebuild cursor reads Z; the corrected edit gives [A:2, B:118] |
| Rebuild.Push | src/lib/model/body.ts:760-769 | a tile equal to the pending run extends it; any other closes it and opens a run of length 1; the runs stay positive and merged and gain exactly that cell |
| Rebuild.RebuildColumn | src/lib/model/body.ts:722-774 | the rebuilt column is well formed, neighbouring runs differ, and each cell holds info's answer inside [miny, maxy) (null keeps the tile, a number keeps the data) and the old tile outside it |
| Rebuild.RebuildSubGrid | src/lib/model/body.ts:717-776 | columns in [minx, maxx) are rebuilt as above and every other column slot is kept |
| Grid.GetTile | src/lib/model/body.ts:441-480 | shape 0 and null data outside the grid, for a missing subgrid and for a never-written column; otherwise the cell of the column behind the coordinate |
| Grid.ColumnAt | src/lib/model/body.ts:450-465 | the column slot behind a local cell is missing or well formed |
| Grid.WriteSub | src/lib/model/body.ts:595-657 | the point edit inside one subgrid changes only cell y of column x |
| Grid.SetTileLocal | src/lib/model/body.ts:578-592 | `_setTile` keeps the grid's origin, size and shape, creates a missing subgrid, and touches only the subgrid of the written cell |
| Grid.SetTileLocalWrites | src/lib/model/body.ts:578-657 | with the corrected column edit, the written cell holds the new shape, with the data given or, when undefined in an existing column, the data it had |
| Grid.SetTileLocalFrame | src/lib/model/body.ts:578-657 | with the corrected column edit, every other cell of the grid keeps its tile |
| Grid.Grow | src/lib/model/body.ts:783-815 | the enlarged block array keeps every old block at its offset by (left, down) and the origin moves by whole blocks |
| Grid.ExpandGrid | src/lib/model/body.ts:777-816 | afterwards the requested box, shifted by the origin's move, lies inside the grid, and the origin moves down and left by whole subgrids |
| Grid.ExpandGridKeepsTiles | src/lib/model/body.ts:777-816 | growing keeps the column and tile behind every grid coordinate, so getTile is unchanged everywhere |
| Grid.SetTileWrites | src/lib/model/body.ts:482-489 | with the corrected column edit, after setTile(x, y, shape, data), getTile(x, y) returns that shape and data; undefined data keeps the data of a cell whose column existed |
| Grid.SetTileFrame | src/lib/model/body.ts:482-489 | with the corrected column edit, setTile leaves every other coordinate's tile as it was, growth included |
| Grid.SetTileSameIsNoOp | src/lib/model/body.ts:610-611 | writing the tile a cell already holds changes no cell of the grid |
| Grid.ClearTileClears | src/lib/model/body.ts:491-498 | after clearTile(x, y) the cell reads empty and every other cell is unchanged, inside or outside the grid |
| Lines.Side | src/lib/model/body.ts:300-303 | the getter returns "all" exactly for code 0 and "down"/"right" exactly for code 1, and always one of the three names accepted for the line's orientation |
| Lines.SetSide | src/lib/model/body.ts:304-322 | the setter keeps the orientation and ignores a name not accepted for it; reading the side back returns the name set exactly when that name is accepted |
| Lines.SideThenSet | src/lib/model/body.ts:300-322 | setting the side a line reports leaves a line with code 0, 1 or 2 unchanged |
| Lines.SetSideTwice | src/lib/model/body.ts:304-322 | of two sets, the last accepted one decides |
| Coordinates.ChainOffset | src/lib/model/body.ts:138-143 | a body of the top entity itself has offset zero; otherwise the chain's offsets add up |
| Coordinates.Ascend | src/lib/model/body.ts:138-143 | the loop of localToGlobal ends exactly when the parent chain reaches the top entity |
| Coordinates.AscendAdds | src/lib/model/body.ts:138-143 | walking up adds the sum of the entity offsets along the chain |
| Coordinates.DescendSubtracts | src/lib/model/body.ts:154-159 | the loop of globalToLocal subtracts that same sum |
| Coordinates.LocalToGlobal | src/lib/model/body.ts:133-148 | the global point is the local point plus the chain offset, the body's offset and the top entity's position; it is defined exactly when the chain reaches the top entity |
| Coordinates.GlobalToLocal | src/lib/model/body.ts:149-164 | the local point is the global point minus the same three terms |
| Coordinates.LocalGlobalRoundTrip | src/lib/model/body.ts:133-164 | globalToLocal(localToGlobal(p)) == p whenever the chain reaches the top entity |
| Coordinates.GlobalLocalRoundTrip | src/lib/model/body.ts:133-164 | localToGlobal(globalToLocal(p)) == p whenever the chain reaches the top entity |

## Findings

| source | as written | input that shows it | evidently intended | confidence | as-written member | corrected member |
|---|---|---|---|---|---|---|
| src/lib/model/world.ts:145-153 | `_getLayerRule` reads with the sign-propagating `>>`, so a field at bit 30 sign-extends | a second layer with id 15 or 23 (15 is the 15th added layer) whose rule is ALWAYS: the read gives -1, getLayerRule returns undefined, and the broadphase drops the pair, including in a fresh world | read with `>>>` so every field reads 0..3 | high; not executed | Layers.FreshWorldDropsLayer15 | Layers.KeepPair |
| src/lib/model/body.ts:617-619 | the start-of-run insert adds a run of length 1 without shortening the current run | column [A:1, B:119], write shape 3 at cell 1: the column covers 121 cells and cells above 1 shift up | shorten the current run by one, as the merge branches do | high; not executed | Columns.InsertBeforeGrowsColumn | Columns.SetInColumn |
| src/lib/model/body.ts:625-627 | the end-of-run insert adds the new run above the current one without shortening it | column [A:119, B:1], write shape 3 at cell 118: getTile(118) still returns A and the column covers 121 cells | shorten the current run by one so the new run covers cell y | high; not executed | Columns.InsertAfterHidesWrite | Columns.SetInColumn |
| src/lib/model/body.ts:614-616 | the merge into the run below can leave a run of length 0, which the single-step cursor of `_setTilesInSubGrid` (body.ts:737-741) then reads as a real cell | column [A:1, Z:1, B:118], write A at cell 1 gives [A:2, Z:0, B:118]; a rebuild then reads Z at cell 2, which holds B | remove a run whose length drops to 0 | high; not executed | Rebuild.EmptyRunMisread | Rebuild.CursorReadsCells |

The corrected edit `Columns.SetInColumn` (with `Columns.MergePrevFixed`,
`InsertBeforeFixed`, `MergeNextFixed` and `InsertAfterFixed`) is what
`Grid.SetTileLocal` uses. `Layers.GetLayerRule` is the corrected read
behind `Layers.KeepPair`.

## Left out

- The rest of `simulate` and `_broadphase` (world.ts:231-620) is not modelled. It mutates entity fields, calls contact code in entity.ts and the VBH or binary tree, fires listeners and reads `performance.now`; none of that code is part of this model.
- `_handleOverlap` (world.ts:768-823) is not modelled: it writes contact slots through entity methods that are not part of this model.
- `raycast`, `queryRect` and `queryPoint` are not modelled: they are stubs that return null.
- `Body._clearContacts` is not modelled: it reads fields that the contact records built in world.ts do not have.
- The `Body.x` and `Body.y` accessors are not modelled: their loops never advance, so they do not terminate for a nested entity.
- The public tile wrappers `setTiles`, `clearTiles`, `forTiles`, `setTileShape`, `clearTileShape` and `clearTileShapes` are not modelled. `setTiles` passes `_expandGrid` its arguments in the wrong order, the list form of `_clearTiles` subtracts the origin twice, and `setTileShape` skips the origin shift. The core operations they call are modelled instead.
- The grid-level `_setTiles` loop over subgrids is not modelled. `Rebuild.RebuildSubGrid` models `_setTilesInSubGrid` on one subgrid, for a column range already clamped into it.
- The `Grid` constructor's layout heuristic (body.ts:357-439) is not modelled. Grids are built from `Grid.Grid` values that satisfy `Grid.Valid`.
- Tile-to-collision-body merging is not modelled; `SubGrid.rows` and `SubGrid.columns` are allocated but never used.
- lodash `cloneDeep` and `isEqual` are modelled as value equality on an opaque `Data` type (null, undefined, or a user value).
- IEEE floating point is modelled as exact `real` arithmetic, keeping the 0.0001 and 0.000001 tolerances.
- The `console.log` setters are modelled only as `World.SetTime`; the others change nothing either.
- The four rule strings are the `Rule` datatype, and `Layers.RuleArg` adds "any other value". The string constants themselves live in enums.ts, which is not part of this model. The `LayerCall` sequences of `Layers.Run` use the four rules only; `Layers.OtherRuleReadsNever` shows that any other argument acts as NEVER.
- Inherited `Object` keys of `_layerIds` (such as `"constructor"`) are not modelled; a name counts as registered only once added.
- Tile coordinates are integers; non-integer coordinates, which the source would floor into array indices, are not modelled.
- Grid.SetTileLocal: requires the cell to lie inside the grid. Every caller in the source (`setTile` after `_expandGrid`, `clearTile` after its bounds test) ensures this; a direct call outside would index a missing subgrid.
- Columns.SetInColumnAsWritten: requires a column that covers at least G cells, so that the walk can reach cell y. A column the source itself has grown past G still meets this.
- Rebuild.RebuildColumn: requires the old column to have no empty runs, which the corrected edit guarantees. Its misreading of empty runs is shown by `Rebuild.EmptyRunMisread` instead.
- Coordinates.LocalToGlobal: the top entity's world position comes from entity.ts, which is not part of this model, so it is a field of `Body`. A parent chain that does not reach the top entity within as many steps as there are entities is treated like a broken chain; such a chain revisits an entity and would loop forever in the source.
- Grid.GetTile: returns a fresh `Tile(shape, data)` value. The source returns the stored run object itself, with its `length` field, aliased to the grid, so a caller who mutates it changes the grid. `Columns.Lookup` is the same. Aliasing is not modelled.
- Layers.LayerNames: returns a set. The source returns an array in `Object.keys` order (integer-like names first, then insertion order); that order is not modelled.
- Rebuild.RebuildColumn: the `info` callback is a pure, total function of the cell coordinates and the old tile. The source calls it once per cell of the range, in column order, and it could have side effects or depend on call order; that is not modelled.
- Layers.Run: the first throw stops the sequence, and the error carries the table as the throw left it (`LayerError.left`). What a caller does after catching is not modelled.
- Narrowphase.NarrowPhase: the result omits the `body` and `otherBody` fields, which are always b1 and b2.
