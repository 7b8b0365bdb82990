# Voxel world store of fake-minecraft-by-hieu

This is a model of the world logic of `main.js`, a browser voxel sandbox.
It covers the following parts:

- **The five block kinds.** These are the entries of `BLOCK_TYPES` (module `Blocks`).
- **The block table.** This is the `blocks` dictionary keyed by the cell
  "x,y,z" (module `Store`), with the read-only queries `getBlockAt`,
  `isSolidBlock` and `getGroundHeight`, and the one-block step-up gate of
  the movement code.
- **World population.** This is `generateTree` and the loops of
  `generateWorld`, written as "loop prefix" functions: the table after
  the first n iterations of each nested loop (module `Terrain`). Lemmas
  describe their effect on each cell.
- **The mouse rule.** This is the mine/place branch of the `mousedown`
  handler on the table (module `Editing`).
- **The live world** (module `Scene`). Class `World` holds:
  - the table of block meshes;
  - the scene's set of meshes;
  - the selected kind `curBlock`.

  Its methods `SetBlock`, `RemoveBlock`, `GenerateTree`, `GenerateWorld`,
  `MouseDown` and `KeyDown` update these in place. Each method is proved
  equal to the functions above on the table it induces. The invariant
  `Valid()` ties the scene to the table: the scene holds exactly the
  table's meshes, and each mesh sits at the centre of its own cell.

Meshes are objects (`Scene.Mesh`), so a mesh that `setBlock` replaces is a
different object from its successor. The nested loops of `generateTree`
and `generateWorld` are split into one method per loop level:
`GrowCanopy`, `CanopyRow`, `CanopyPillar` and `PopulateColumn`. Each level
is proved against its prefix function.

Randomness and the terrain wave are inputs:
- A `Draw` is one value of `Math.random()` in [0, 1).
- A `Noise` gives, for each column, three values:
  - the wave `sin(x*0.1)*2 + cos(z*0.1)*2`;
  - the tree draw;
  - the trunk draw.

The raycast is also an input: a `Pick` names the mesh that was hit, the
cell beyond the hit face, and the camera-to-hit distance.

`Blocks.FromId`, `Blocks.Name` and `Blocks.NameInjective` only record the
`BLOCK_TYPES` data (keys and display names); no other operation of the
core reads a block's name.

## Model

| member | source | states |
|---|---|---|
| Blocks.Id | main.js:16-22 | every kind has a BLOCK_TYPES key between 1 and 5 |
| Blocks.FromId | main.js:16-22 | a key has an entry exactly when it is 1 to 5 |
| Blocks.IdRoundTrip | main.js:16-22 | looking up a kind's key gives the kind back, and a key with an entry is that entry's key |
| Blocks.Name | main.js:16-22 | every kind has a non-empty display name |
| Blocks.NameInjective | main.js:16-22 | distinct kinds have distinct names |
| Blocks.DigitCode | main.js:148-154 | the selecting key of each kind is a "Digit" key code |
| Blocks.SelectBlock | main.js:148-154 | the selection after a keydown; specified by Blocks.SelectBlockSpec |
| Blocks.SelectBlockSpec | main.js:147-154 | Digit1 to Digit5 select keys 1 to 5 whatever was selected; any other code keeps the selection; a change of selection only comes from that kind's digit code |
| Store.Lookup | main.js:70-72 | the lookup is None exactly for an absent key, else the stored kind |
| Store.CellAt | main.js:208 | the floored cell contains the point on every axis |
| Store.SolidCell | main.js:207-210 | a cell holds a block other than Leaves; specified by Store.IsSolidBlockSpec |
| Store.IsSolidBlock | main.js:207-210 | isSolidBlock on the floored cell; specified by Store.IsSolidBlockSpec |
| Store.IsSolidBlockSpec | main.js:207-210 | a point is solid iff its cell holds a block that is not Leaves; leaves and air are never solid |
| Store.Centre | main.js:65 | a mesh centre x+0.5, y+0.5, z+0.5 lies inside its own cell |
| Store.MeshCell | main.js:186-189 | the cell mining recovers from a mesh position: subtract 0.5 and floor; specified by Store.MeshCellRoundTrip |
| Store.MeshCellRoundTrip | main.js:186-189 | subtracting 0.5 from a mesh centre and flooring gives back the cell; distinct cells have distinct centres |
| Store.GroundScan | main.js:213-217 | the downward scan from a height; specified by Store.GroundScanSpec |
| Store.GroundHeight | main.js:212-218 | getGroundHeight from WORLD_HEIGHT; specified by Store.GroundHeightSpec and computed by Store.GetGroundHeight |
| Store.GroundScanSpec | main.js:213-217 | the scan from y returns one above the highest solid cell at or below y, or 0; nothing from the result up to y is solid |
| Store.GroundHeightSpec | main.js:212-218 | the ground height is in [0, WORLD_HEIGHT + 1]; when positive, the block under it is solid; no cell from it up to WORLD_HEIGHT is solid |
| Store.GetGroundHeight | main.js:212-218 | the downward loop with early return computes the ground height |
| Store.StepAccepted | main.js:247 | the step-up gate; specified by Store.StepAcceptedSpec |
| Store.StepAcceptedSpec | main.js:243-250 | a move is accepted exactly when the destination column has no solid block from one above the current ground up to WORLD_HEIGHT |
| Terrain.ColumnBlock | main.js:107-109 | the layer kind at height y; specified by Terrain.ColumnLayers |
| Terrain.ColumnLayers | main.js:107-109 | below height h: Grass iff y = h-1, Dirt iff h-4 < y < h-1, Stone iff y <= h-4 |
| Terrain.ColumnPrefix | main.js:106-110 | the y loop's prefix; specified by Terrain.ColumnPrefixAt |
| Terrain.FillColumn | main.js:106-110 | the whole column fill; specified by Terrain.FillColumnAt |
| Terrain.ColumnPrefixAt | main.js:106-110 | after n iterations of the y loop, cells 0..n-1 of the column hold their layer kind and every other cell is unchanged |
| Terrain.FillColumnAt | main.js:106-110 | the fill writes its layer kind into every cell 0 <= y < h of the column, overwriting; nothing at y >= h, below 0 or in another column changes |
| Terrain.TrunkHeight | main.js:83 | the trunk height is 4 or 5 |
| Terrain.TrunkPrefix | main.js:84-86 | the trunk loop's prefix; specified by Terrain.TrunkPrefixAt |
| Terrain.TrunkPrefixAt | main.js:84-86 | after n iterations, the cells (x, y+i, z), 0 <= i < n, are Wood whatever they held; nothing else changes |
| Terrain.LeafStep | main.js:91-95 | one dy iteration; specified through Terrain.PillarAt |
| Terrain.Pillar | main.js:90-96 | the dy loop's prefix; specified by Terrain.PillarAt |
| Terrain.PillarAt | main.js:90-96 | the dy loop adds Leaves to exactly the empty in-diamond cells above (x+dx, z+dz) and changes nothing else; the diamond test of main.js:91 is Terrain.InDiamond |
| Terrain.Row | main.js:89-98 | the dz loop's prefix; specified by Terrain.RowAt |
| Terrain.RowAt | main.js:89-98 | the dz loop adds Leaves to exactly the empty in-diamond cells of its slice and changes nothing else |
| Terrain.CanopyPrefix | main.js:88-99 | the dx loop's prefix; specified by Terrain.CanopyPrefixAt |
| Terrain.CanopyPrefixAt | main.js:88-99 | after l iterations of the dx loop, the empty in-diamond cells with dx < l-2 hold Leaves and nothing else changed |
| Terrain.CanopyCellsSpec | main.js:88-94 | the canopy cell set is exactly the offsets with abs(dx), abs(dz) <= 2, 0 <= dy <= 2 and abs(dx)+abs(dz)+dy < 5 (the set Terrain.CanopyCells) |
| Terrain.Canopy | main.js:87-99 | the closed-form canopy; specified by Terrain.CanopyAt and tied to the loops by Terrain.CanopyLoops |
| Terrain.CanopyAt | main.js:87-99 | the canopy is insert-only: an in-diamond cell becomes Leaves exactly when it was empty; every other cell keeps what it had |
| Terrain.CanopyLoops | main.js:88-99 | the three nested canopy loops compute the canopy |
| Terrain.TreeLoops | main.js:82-100 | the trunk loop followed by the canopy loops over the trunk top compute the tree |
| Terrain.Tree | main.js:82-100 | generateTree on the table; specified by Terrain.TreeAt and Terrain.TreeShape |
| Terrain.TreeAt | main.js:82-100 | a tree makes trunk cells Wood, makes empty canopy cells Leaves, and leaves every other cell unchanged |
| Terrain.TreeShape | main.js:82-100 | a tree overwrites only its trunk, never replaces any other block, and writes only Leaves and only inside the diamond over the trunk top |
| Terrain.ColumnHeight | main.js:105 | the column height 5 + floor(wave); used by Terrain.GenerateIntact |
| Terrain.HasTree | main.js:111 | a tree when the draw is below 0.015; used by Terrain.GenerateIntact |
| Terrain.ColumnStep | main.js:105-111 | one column of generateWorld; specified by Terrain.StepEstablishes, Terrain.StepPreserves and Terrain.StepFrame |
| Terrain.TreeHeight | main.js:83 | the trunk height drawn for a column's tree; 4 or 5 by Terrain.TrunkHeight |
| Terrain.StepEstablishes | main.js:105-111 | after its own step, a column holds its full fill and, if it got a tree, the whole trunk |
| Terrain.StepPreserves | main.js:104-112 | a step at one column never disturbs the fill or trunk of another column |
| Terrain.Strip | main.js:104-112 | the z loop's prefix; specified by Terrain.StripEstablishes, Terrain.StripPreserves and Terrain.StripFrame |
| Terrain.StripPreserves | main.js:104-112 | a whole z loop at row x keeps every intact column of another row intact |
| Terrain.StripEstablishes | main.js:104-112 | after the z loop at row x, every visited column of that row is intact |
| Terrain.TerrainPrefix | main.js:103-113 | the x loop's prefix; specified by Terrain.TerrainPrefixIntact and Terrain.TerrainPrefixFrame |
| Terrain.TerrainPrefixIntact | main.js:103-113 | after l iterations of the x loop, every visited column is intact |
| Terrain.Generate | main.js:102-114 | generateWorld on the table; specified by Terrain.GenerateIntact and Terrain.GenerateFrame |
| Terrain.GenerateIntact | main.js:102-114 | after generateWorld, each column x, z in [-32, 32) holds Grass, Dirt and Stone layers from 0 up to its height, and each tree trunk is whole from (x, height, z) up |
| Terrain.StepFrame | main.js:104-111 | one column step changes no cell more than two columns away on x or z |
| Terrain.StripFrame | main.js:104-112 | the z loop changes no cell outside its row's reach |
| Terrain.TerrainPrefixFrame | main.js:103-113 | the x loop changes no cell outside the visited rows' reach |
| Terrain.GenerateFrame | main.js:102-114 | generateWorld changes no cell with x or z outside [-34, 34): the square plus the canopy overhang |
| Editing.Edit | main.js:180-203 | the mouse rule on the table; specified by Editing.EditIgnored, Editing.MineSpec, Editing.PlaceSpec and Editing.EditNeverOverwrites |
| Editing.EditIgnored | main.js:180-203 | without pointer lock, without a hit, beyond reach 6 or with a button other than 0 and 2 (the predicate Editing.Ignored), nothing changes |
| Editing.MineSpec | main.js:194-195 | a left press within reach empties the hit cell and changes no other cell |
| Editing.PlaceSpec | main.js:196-201 | a right press within reach fills an empty target with the selected kind, leaves an occupied target alone, and changes no other cell |
| Editing.EditNeverOverwrites | main.js:194-202 | only a left press can remove or replace an existing block; a press changes at most the hit cell or the target cell |
| Scene.Mesh.constructor | main.js:64-65 | a new mesh has the given kind and position |
| Scene.World.constructor | main.js:60 | the world starts with an empty table, an empty scene and Grass (key 1) selected |
| Scene.World.SceneMeshAt | main.js:186-189 | the cell mining recovers from a scene mesh's position is the cell that mesh is stored under |
| Scene.World.GetBlockAt | main.js:70-72 | a mesh is returned exactly for an occupied cell; it is in the scene, has the cell's kind and sits at the cell's centre |
| Scene.World.SetBlock | main.js:61-68 | the cell now holds a fresh mesh of the kind, whatever it held before; the old mesh leaves the scene and the new one enters; every other cell keeps its mesh; the scene stays equal to the table |
| Scene.World.RemoveBlock | main.js:74-80 | the key becomes absent; its mesh leaves the scene; an absent key changes nothing; every other cell keeps its mesh |
| Scene.World.GenerateTree | main.js:82-100 | the table afterwards is the tree of the trunk draw's height rooted at (x, y, z); the scene stays consistent |
| Scene.World.GrowCanopy | main.js:88-99 | the dx loop computes the canopy prefix of all five slices |
| Scene.World.CanopyRow | main.js:89-98 | the dz loop computes one slice of the canopy |
| Scene.World.CanopyPillar | main.js:90-97 | the dy loop adds Leaves to the empty in-diamond cells above one offset |
| Scene.World.GenerateWorld | main.js:102-114 | the table afterwards is the generated world for the given noise; the scene stays consistent |
| Scene.World.PopulateColumn | main.js:105-111 | one column iteration performs the fill and then the tree of that column |
| Scene.AimOf | main.js:185-191 | the hit cell (mesh position minus 0.5, floored), the target cell and the distance the handler acts on; used by Scene.World.MouseDown |
| Scene.World.MouseDown | main.js:180-203 | the table afterwards is the mouse rule applied to the hit; an ignored press leaves table and scene untouched; mining takes the hit mesh out of the scene; an empty target receives a fresh mesh; every cell other than the hit cell and the target keeps its mesh object |
| Scene.World.KeyDown | main.js:148-154 | the selection afterwards is the digit-key selection of the old one |

## Left out

- three.js rendering is not modelled because it is a foreign library. This covers the renderer, camera, lights, fog, textures, materials, box geometry, the highlight box and the resize handler (main.js:1-41, 156-163, 276-280). A mesh is kept only as an object with a kind and a position.
- makeBlock is not a separate member: its only observable result, the mesh's kind, is set by the `Scene.Mesh` constructor together with the position setBlock gives it.
- The raycast in updateRay is not modelled because it is library float geometry (main.js:165-178). Its outcome arrives as a `Pick`: the hit mesh, the target cell reached from the hit point along the face normal, and the distance from the camera.
- The DOM and pointer-lock wiring, the keys map and mouse-look are event plumbing and float yaw/pitch, so they are not modelled (main.js:128-143). The lock state is a parameter of `MouseDown`.
- Math.random is not modelled: each draw is a `Draw` parameter. The model proves its properties for every draw, not for a distribution.
- Math.sin and Math.cos in the terrain height are not modelled: the wave is the `Noise.wave` parameter. It may be any real. The source's wave always lies in [-4, 4], so its heights are 1 to 9; the model covers any height, including heights of 0 or less, where the fill writes nothing.
- The float physics of animate is not modelled because it is time-driven floating-point code (main.js:220-273). This covers dt, gravity integration, the 1.7 eye-height snap, jumping and requestAnimationFrame. Only the integer step-up gate at main.js:247 is modelled, as `Store.StepAccepted`.
- The call `generateWorld()` at load time is not modelled as a fixed starting state: `Scene.World.GenerateWorld` works from any valid world.
