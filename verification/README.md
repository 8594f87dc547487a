# Models of the game's algorithms

Dafny models of the algorithmic core of the game, its engine, its datagram protocol
and its packaging scripts, with proofs of what that code is for. Each source file
that changes state in place is modelled by classes and methods with the same loops
and branches; beside them stands a specification as functions, which the methods are
proved against, and about which the main results are proved as lemmas. All sizes are
unbounded and all results hold for every input, run or reachable state.

* **Skyline packer** (`RectPack*.dfy`). `Columns` and `Outline` say what a skyline is,
  `Search`, `Choice` and `Placement` what the search and the list surgery do to it,
  `Packer` and `PackerRuns` what requests and runs of them keep, `Tightness`, `Floor` and
  `Overshoot` where best fit puts a block and what that raises. `RectPack.Context` is
  the linked list itself, nodes, links and free list included; `PackRects` is the sort,
  pack and sort back of a whole array.
* **Checksum** (`Crc32*.dfy`, `Arithmetic.dfy`). The register on numbers, and the same
  register on words of bits, where linearity, bursts and the residue are proved.
* **Gizmo algebra** (`GizmoClip.dfy`, `GizmoMatrix.dfy`, `GizmoGrid.dfy`). Over the reals: clipping a
  segment by six planes, the planes of a projection, inversion by cofactor pairs.
* **Collisions** (`Collisions.dfy`, `CollisionRuns.dfy`, `SkillCircle.dfy`). The pair
  map and its events over runs of frames, and the double buffer of contacts.
* **Meshes** (`Meshes.dfy`, `ConeMesh.dfy`, `TerrainPick.dfy`). Index generators as
  oriented surfaces, and the picker that enumerates the grid.
* **Growable array** (`ImVector.dfy`) and **model binding** (`ModelBinding.dfy`).
* **Packages and manifests** (`Sorting.dfy`, `PackageText.dfy`, `PackagePaths.dfy`, `Packages.dfy`,
  `PackageFiles.dfy`, `RuntimeManifest.dfy`, `RuntimeReaders.dfy`, `Staging.dfy`, `StagedRuntime.dfy`, `StagedExamples.dfy`). Sealing against verifying,
  and the manifest that a Python script prints and a C++ and a Python reader parse.

`dafny verify dfyconfig.toml` checks all of it.

## Where the code does not do what it says

The models follow the code. The lemmas named prove each point, with the condition under
which the code does keep its promise.

* The packer's comments (`game/Engine/imstb_rectpack.h` 145-152 and 252-262) promise
  that rounding widths up keeps it from running out of nodes. The rounding is used in
  the search only; the list is cut at the real width. Nodes suffice if and only if there
  are as many as columns (`NodeShortage.NodesSufficeIff`), and otherwise a block that
  has room can be refused (`NodeShortage.RefusedThoughRoom`), under either heuristic.
* The rounding also lets best fit raise columns to the right of a block: the block as
  widened is pushed against a right edge, and the block itself ends inside the step that
  it cuts. Nothing overlaps, but room is lost. It takes three columns of widening
  (`Overshoot.RaisesExactlyIff`); with width 16, 4 nodes and the blocks 3x1, 2x3, 8x4
  and 1x1 the last one, at column 1, raises column 2 too (`Overshoot.OvershootRun`).
* A pair of colliders that change places in the list gets another map entry, and with it
  a second Enter and no Exit (`CollisionRuns.OrderlyIff`).
* `BiancaESkillCircle` publishes contacts "independent of update order", but setting the
  damage flag, even to the value it has, empties the published set, so that readers after
  it in the same frame see nothing (`SkillCircle.SeesContactsIff`).
* A cone of one or two slices is not a surface (`ConeMesh.ConeClosedIff`).
* `DrawGrid` clips the lines of the grid against the planes of `view * projection`, but
  draws them with `matrix * view * projection` (`GizmoGrid.DrawGrid`). What is drawn is
  right for all grids if and only if the two matrices take the same points of the grid's
  plane to clip space (`GizmoGrid.GridFitsIff`); a grid moved to the right is drawn out of
  view (`GizmoGrid.MovedGrid`).
* Staging does not notice a picture that gets the place of an asset, and neither reader
  accepts the result (`StagedRuntime.PictureRejected`, with the input in
  `StagedExamples.ExampleIsRejected`). It does not notice either that a path holds one of
  the characters at which Python splits lines, such as U+2028: the game accepts such a
  runtime, and the release script cannot read its manifest
  (`StagedExamples.SplitIsPreparedOnly`). `StagedRuntime.FreshIsPreparedIff` and
  `StagedRuntime.FreshIsCollectedIff` say exactly when the two accept what was staged.
* The startup code's counting of files establishes equal sets if and only if no path is
  listed twice (`RuntimeReaders.CountingSuffices`).

## Notes on the sources

* `Terrain::Pick` takes the first triangle of each cell in the order opposite to the
  mesh's (`TerrainPick.TestsMeshTriangles`), so that picking agrees with the mesh for a
  ray that meets triangles from both sides.
* Bones that a second `ReadModel` appends are never linked to parents or children; the
  ghost field `linked` of `ModelBinding.Model` says how many are. `GetBoneByIndex` takes
  an unsigned index; a negative number is out of range all the same.
* `Scene::LateUpdate` calls the quadtree variant; `CheckCollision`, modelled here, is the
  variant that compares all pairs.

## Model

| member | source | states |
|---|---|---|
| `PackRects.PackRects` | game/Engine/imstb_rectpack.h:546-584 | The array comes back in the order it was given with id, w and h untouched; was_packed is 0 exactly for rectangles at the maximal coordinates, empty ones lie at the origin, and the result is 1 exactly when all are packed. The non-empty ones were requested from the target one after the other, the taller before the lower and of one height the wider before the narrower; all that got room are among the blocks placed, on the target, apart from each other and from everything placed by earlier calls; no node is lost |
| `PackerRuns.RunSafe` | game/Engine/imstb_rectpack.h:449-526 | Over every run of requests, under both heuristics and any alignment, any two placed blocks are apart and lie on the target |
| `RectPack.Context.PackRectangle` | game/Engine/imstb_rectpack.h:449-526 | A block is refused exactly when no place above the skyline fits it as the search widens it, or no node is free. Otherwise it goes to the best of all places of the target: the lowest, then leftmost one in bottom-left mode; the lowest, then the one over the least area, then the leftmost in best-fit mode. The target is that of the specification, the block joins those placed, every invariant holds, and the two chains hold the same nodes as before |
| `Floor.WasteExactInRuns` | game/Engine/imstb_rectpack.h:291-339 | After every run on an initialised target, under either heuristic, the waste reported at every place is exactly the area between the block and the skyline |
| `Floor.PlacedBest` | game/Engine/imstb_rectpack.h:347-447 | In every run a granted block is at the best place of the whole target, in terms of column heights alone |
| `Overshoot.RaisesExactlyIff` | game/Engine/imstb_rectpack.h:471-499 | On targets of one alignment, blocks of one width raise exactly their own columns in every run if and only if the search widens them by at most two columns |
| `Overshoot.OvershootRun` | game/Engine/imstb_rectpack.h:417-441 | For every alignment and width that is widened by more, a best-fit run of three blocks after which such a block raises columns beyond its right edge |
| `Tightness.BestFitIsTightest` | game/Engine/imstb_rectpack.h:365-441 | Where the reports are true, a place is best-fit's choice just if it fits and no place of the target, edge or not, is lower, or as low over less area, or equal to it further left |
| `Choice.LowestEdgeIsBottomLeft` | game/Engine/imstb_rectpack.h:365-391 | Trying only the left edges of steps finds the place that is lowest, then leftmost, among all columns |
| `Packer.PlacedLowest` | game/Engine/imstb_rectpack.h:347-447 | Under both heuristics a placed block is as low as at any column where the rounded block could be |
| `Placement.PlaceExactIff` | game/Engine/imstb_rectpack.h:471-499 | The list surgery at a given x raises just the block's columns if and only if the block does not start and end strictly inside one step |
| `Packer.BottomLeftRaisesExactly` | game/Engine/imstb_rectpack.h:464-499 | A bottom-left placement raises the columns from x to x+w to the top of the block and changes no other column |
| `NodeShortage.NodesSufficeIff` | game/Engine/imstb_rectpack.h:252-262 | Under either heuristic, requests never run out of nodes, whichever they are, if and only if there are at least as many nodes as columns; the rounding of widths that is meant to ensure it makes no difference |
| `NodeShortage.RefusedThoughRoom` | game/Engine/imstb_rectpack.h:459-462 | Under either heuristic, with fewer nodes than columns, one block of one column for every node is placed, and then a block that has room is refused |
| `NodeSupply.EnoughNodes` | game/Engine/imstb_rectpack.h:145-152 | With at least as many nodes as columns a node is free after every run |
| `NodeSupply.Alignment` | game/Engine/imstb_rectpack.h:245-263 | The rounding lets the nodes carry the whole width, unless running out is allowed |
| `NodeSupply.LeastAlignment` | game/Engine/imstb_rectpack.h:245-263 | It is the smallest for which the nodes carry the width, and 1 where running out is allowed |
| `NodeSupply.AlignmentCovers` | game/Engine/imstb_rectpack.h:257-261 | The nodes carry the width at this alignment, and not at the next smaller one |
| `NodeSupply.AlignmentOne` | game/Engine/imstb_rectpack.h:261 | Widths are left alone exactly when there are at least as many nodes as columns |
| `NodeSupply.RoomForUnits` | game/Engine/imstb_rectpack.h:252-261 | With fewer nodes than columns all the nodes but one, and one rounded column, fit side by side: the room the counterexample needs |
| `NodeShortage.UnitRequest` | game/Engine/imstb_rectpack.h:449-526 | Under either heuristic unit blocks go side by side on the floor |
| `Columns.BottomLeftUnique` | game/Engine/imstb_rectpack.h:370-375 | There is at most one bottom-left place |
| `Outline.OneStepPerColumn` | game/Engine/imstb_rectpack.h:501-507 | Every column lies under exactly one step of the chain |
| `Outline.ColumnsCarried` | game/Engine/imstb_rectpack.h:281-287 | A chain that rises in x from 0 to the sentinel carries a height for each of its columns |
| `Outline.ColumnsUnique` | game/Engine/imstb_rectpack.h:281-287 | Those heights are the only ones it carries |
| `Search.ReportFindsHighest` | game/Engine/imstb_rectpack.h:291-339 | The reported height is the highest column under the place |
| `Search.ReliableIsExact` | game/Engine/imstb_rectpack.h:304-337 | From a step's edge, from a step above the floor, or within one step the reported waste is exact |
| `Floor.FloorReliable` | game/Engine/imstb_rectpack.h:304-337 | One of these holds for every place as long as only the last step is on the floor |
| `Floor.RequestKeepsFloor` | game/Engine/imstb_rectpack.h:449-526 | Every request keeps the floor under the last step only |
| `Floor.RunKeepsFloor` | game/Engine/imstb_rectpack.h:449-526 | So does every run |
| `Floor.ChosenIffBest` | game/Engine/imstb_rectpack.h:347-447 | A place that fits is the heuristic's choice just if it is the best of all places |
| `Floor.BestInside` | game/Engine/imstb_rectpack.h:417-441 | A block put strictly inside a step is in best-fit mode, and the step is narrower than the block as widened |
| `Tightness.BetterNeighbour` | game/Engine/imstb_rectpack.h:393-408 | Between two edges, one of the two neighbouring places is no worse |
| `Tightness.BestAtEdge` | game/Engine/imstb_rectpack.h:393-441 | Some edge-aligned place is no worse than any given place |
| `Tightness.TightestUnique` | game/Engine/imstb_rectpack.h:429-430 | There is at most one best place |
| `Tightness.TightestInside` | game/Engine/imstb_rectpack.h:417-441 | The best place is inside a step only where the step is too narrow for the block |
| `Overshoot.NarrowlyWidened` | game/Engine/imstb_rectpack.h:353-356 | A granted block that is widened by at most two columns, or placed bottom-left, raises exactly its own columns |
| `Overshoot.FloorRequest` | game/Engine/imstb_rectpack.h:449-526 | A block that fits on the floor goes to its left end, under either heuristic |
| `Choice.BestFitUnique` | game/Engine/imstb_rectpack.h:410-441 | The best-fit choice (lowest, then least waste, then leftmost) is unique |
| `Choice.BestFitIsLowest` | game/Engine/imstb_rectpack.h:428-436 | The best fit fits on the target, and no column at all would be lower |
| `Choice.NoCandidateNoPlace` | game/Engine/imstb_rectpack.h:410-441 | If no edge-aligned place fits, no place does |
| `Choice.LeftBestIsBest` | game/Engine/imstb_rectpack.h:365-389 | The left pass keeps the best of the edges tried so far, under either heuristic |
| `Choice.RightBestIsBest` | game/Engine/imstb_rectpack.h:411-440 | The right pass keeps the best of the left result and the edges tried so far |
| `Searched.LeftIsBottomLeft` | game/Engine/imstb_rectpack.h:365-391 | A finished left pass holds the bottom-left place, its step and its height |
| `Searched.PassesAreBestFit` | game/Engine/imstb_rectpack.h:365-441 | Both passes hold the best fit, and nothing only when no place fits |
| `Searched.FoundIsChosen` | game/Engine/imstb_rectpack.h:347-447 | What the search finds is the heuristic's choice for the rounded width; when it finds nothing, or something too high, there is no room |
| `Searched.RoomIsChosen` | game/Engine/imstb_rectpack.h:347-447 | Where there is room, the heuristic has a choice that fits |
| `Searched.RequestIffNext` | game/Engine/imstb_rectpack.h:449-526 | Every request has exactly one response: existence and uniqueness |
| `Packer.AlignUp` | game/Engine/imstb_rectpack.h:353-356 | The width is rounded up to the next multiple of the alignment |
| `Packer.RestsOnColumns` | game/Engine/imstb_rectpack.h:456-467 | A placed block is on the target and stands on or above every column under it |
| `Packer.PlacingRaises` | game/Engine/imstb_rectpack.h:464-499 | Placing keeps a well-formed target, and raises a run of columns that starts at x and has at least the block's width |
| `Packer.RequestRaises` | game/Engine/imstb_rectpack.h:464-499 | The same for a granted request |
| `Packer.SkylineNeverFalls` | game/Engine/imstb_rectpack.h:449-526 | No request, granted or refused, lowers a column |
| `Packer.BottomLeftAtEdge` | game/Engine/imstb_rectpack.h:391 | The bottom-left place is at a step's left edge |
| `Packer.RequestDetermined` | game/Engine/imstb_rectpack.h:449-526 | A request has one outcome and one successor |
| `PackerRuns.OnTopIsApart` | game/Engine/imstb_rectpack.h:464-499 | A block on top of columns that bury another block is apart from it |
| `PackerRuns.RequestKeepsPacked` | game/Engine/imstb_rectpack.h:449-526 | Each placement adds a new block and keeps all blocks apart, inside, and under the skyline |
| `PackerRuns.RunKeepsPacked` | game/Engine/imstb_rectpack.h:449-526 | So does every run, and no block is placed twice |
| `Placement.SkipCoveredStops` | game/Engine/imstb_rectpack.h:485-493 | The freeing loop goes over exactly the steps that end by the right edge of the block |
| `Placement.PlaceWellFormed` | game/Engine/imstb_rectpack.h:464-507 | The stitched chain starts at 0, increases, and ends at the untouched sentinel |
| `Placement.PlaceRaises` | game/Engine/imstb_rectpack.h:464-499 | The stitched chain carries the raised columns |
| `Placement.AtMostOneStepPerColumn` | game/Engine/imstb_rectpack.h:501-507 | A chain has at most one step more than there are columns |
| `NodeChain.LinkUp` | game/Engine/imstb_rectpack.h:269-271 | The nodes become one chain that ends in null |
| `NodeChain.Redistributed` | game/Engine/imstb_rectpack.h:485-499 | Cutting nodes out of the active chain and putting them on the free chain keeps all of them, once each |
| `RectPack.Context.InitTarget` | game/Engine/imstb_rectpack.h:265-288 | The settings are those given, the heuristic is bottom-left, the rounding is the least that lets the nodes carry the width; the target is empty at height 0 with the sentinel at height 2^30, the given nodes are free, and every invariant holds |
| `RectPack.Context.LayFloor` | game/Engine/imstb_rectpack.h:281-287 | The two own nodes form the floor and the sentinel |
| `RectPack.Context.SetupAllowOutOfMem` | game/Engine/imstb_rectpack.h:245-263 | Sets the alignment to 1, or to the least at which the nodes carry the width, and keeps every invariant |
| `RectPack.Context.SetupHeuristic` | game/Engine/imstb_rectpack.h:233-243 | Sets the heuristic and keeps every invariant |
| `RectPack.FindMinY` | game/Engine/imstb_rectpack.h:291-339 | The walk over the nodes ends before the sentinel and reports height and waste of the outline they form |
| `RectPack.Context.FindBestPos` | game/Engine/imstb_rectpack.h:347-447 | Returns the link to the step over the heuristic's place, or an answer that means there is no room |
| `RectPack.Context.Search` | game/Engine/imstb_rectpack.h:365-446 | The two pointer loops find what the two passes over the outline find |
| `RectPack.Context.TryLeftEdges` | game/Engine/imstb_rectpack.h:365-389 | The left pass over the nodes, to the last edge at which the width fits |
| `RectPack.Context.CompareLeft` | game/Engine/imstb_rectpack.h:368-386 | One candidate of the left pass |
| `RectPack.Context.TryRightEdges` | game/Engine/imstb_rectpack.h:410-441 | The right pass over the nodes |
| `RectPack.Context.FirstTail` | game/Engine/imstb_rectpack.h:411-416 | The first node admissible as a right edge |
| `RectPack.Context.TryRightEdge` | game/Engine/imstb_rectpack.h:417-440 | One right edge; the left cursor only moves right |
| `RectPack.Context.FindLeft` | game/Engine/imstb_rectpack.h:421-426 | The cursor stops at the step over the place |
| `RectPack.Context.CompareRight` | game/Engine/imstb_rectpack.h:427-438 | One candidate of the right pass |
| `RectPack.Context.Decide` | game/Engine/imstb_rectpack.h:451-462 | Refused or granted as specified, with nothing changed yet |
| `RectPack.Context.TakeNode` | game/Engine/imstb_rectpack.h:464-469 | The head of the free chain, filled in; both chains are intact |
| `RectPack.Context.HangIn` | game/Engine/imstb_rectpack.h:471-483 | The new node follows the steps left of x, or becomes the head |
| `RectPack.Context.PutNode` | game/Engine/imstb_rectpack.h:489-491 | The node is the new head of the free chain |
| `RectPack.Context.FreeCovered` | game/Engine/imstb_rectpack.h:485-493 | Exactly the covered nodes move to the free chain |
| `RectPack.Context.FreeOne` | game/Engine/imstb_rectpack.h:488-492 | One of them, with the rest of the active chain untouched |
| `RectPack.Context.LinkOn` | game/Engine/imstb_rectpack.h:495-499 | The chain is closed again, and the step after the block starts no earlier than the block ends |
| `RectPack.Context.Stitch` | game/Engine/imstb_rectpack.h:464-499 | The whole surgery: two disjoint chains over the same num_nodes+2 nodes, showing the placed outline |
| `RectPack.Context.Commit` | game/Engine/imstb_rectpack.h:464-525 | A granted request leaves the specified target and keeps every invariant |
| `RectPack.AcceptedResponse` | game/Engine/imstb_rectpack.h:449-526 | The place found is the one that the specified response names |
| `RectPack.NextMeans` | game/Engine/imstb_rectpack.h:449-526 | The specified response in terms of columns and nodes: refused for want of room or nodes, placed at the best place |
| `RectPack.NextShape` | game/Engine/imstb_rectpack.h:449-526 | The specified response keeps a ready target on which all blocks are packed |
| `Rects.Qsort` | game/Engine/imstb_rectpack.h:555-556 | In-place sorting by any comparison that orders rectangles: a sorted permutation |
| `Rects.BackInPlace` | game/Engine/imstb_rectpack.h:550-573 | Sorting by the noted index after any reordering puts every rectangle back in its place |
| `Rects.RunPutsApart` | game/Engine/imstb_rectpack.h:558-570 | Along the rectangles of one call, those that get room get boxes that differ from each other and from earlier ones |
| `Rects.DistinctInPermutation` | game/Engine/imstb_rectpack.h:572-573 | Reordering the array keeps the boxes different |
| `Rects.FlaggedPermutation` | game/Engine/imstb_rectpack.h:575-580 | Setting the flags commutes with reordering |
| `PackRects.NoteOrder` | game/Engine/imstb_rectpack.h:550-553 | Every index is noted in was_packed |
| `PackRects.SetFlags` | game/Engine/imstb_rectpack.h:575-580 | Flags and the overall result, by coordinates |
| `PackRects.PackOne` | game/Engine/imstb_rectpack.h:558-570 | Empty rectangles leave the target alone; others make one request |
| `PackRects.PackTurn` | game/Engine/imstb_rectpack.h:558-570 | One turn of the loop extends the run by one request |
| `PackRects.PackInOrder` | game/Engine/imstb_rectpack.h:558-570 | The loop is one run over the sorted rectangles |
| `PackRects.SortByHeight` | game/Engine/imstb_rectpack.h:550-556 | A permutation of the noted rectangles: of two, the earlier one is taller, or as tall and at least as wide |
| `Rects.SortedIsTallestFirst` | game/Engine/imstb_rectpack.h:532-542 | What the comparison sorts is in that order |
| `PackRects.SortAndPack` | game/Engine/imstb_rectpack.h:550-570 | Both together |
| `PackRects.SortBack` | game/Engine/imstb_rectpack.h:572-580 | Back to the noted order, flagged |
| `PackRects.SortPackSort` | game/Engine/imstb_rectpack.h:550-583 | The five phases, each tied to the one before |
| `PackRects.PhasesReported` | game/Engine/imstb_rectpack.h:546-584 | From the phases alone: the caller sees its own rectangles, in place, flagged, and apart |
| `PackRects.FinalPutsApart` | game/Engine/imstb_rectpack.h:546-584 | Whatever order the rectangles end in, those with room are apart from each other and from earlier ones, and on the target |
| `PackRects.FinalSettles` | game/Engine/imstb_rectpack.h:546-584 | Each of them is one of the blocks placed, on the target and apart from the earlier ones |
| `PackRects.TwoApart` | game/Engine/imstb_rectpack.h:546-584 | Any two of them are apart |
| `Crc32Detects.BurstMissedIff` | protocol/src/Crc32.cpp:7-18 | Of two equally long messages that differ only within 33 consecutive bits, in the register's order, the checksums agree exactly if the messages are equal or their difference is the generator |
| `Crc32Detects.BurstDetected` | protocol/src/Crc32.cpp:7-18 | Differences within 32 consecutive bits always change the checksum |
| `Crc32Residue.OwnChecksumIff` | protocol/src/Crc32.cpp:5-19 | A message followed by 32 bits, little-endian, has the checksum 0x2144DF1C if and only if they are its own checksum |
| `Crc32Laws.RegisterByTable` | protocol/src/Crc32.cpp:8-17 | The bitwise loop is the table-driven one of section 8 of RFC 1952, for every message, prefix and start |
| `Crc32Detects.CrcAffine` | protocol/src/Crc32.cpp:5-19 | The checksums of three equally long messages sum, without carries, to the checksum of their sum |
| `Folds.FoldComposes` | protocol/src/Crc32.cpp:9-17 | The register over a concatenation is the register over the second part, started from that over the first |
| `Folds.FoldSame` | protocol/src/Crc32.cpp:9-17 | Steps that agree on every register and byte agree on every message |
| `Crc32.Compute` | protocol/src/Crc32.cpp:5-19 | The loop with the mask computes the checksum as specified |
| `Crc32.MaskSelects` | protocol/src/Crc32.cpp:14-15 | Masking with 0 - (crc & 1) is the choice by the bit that falls out |
| `Unsigned.BitXor` | protocol/src/Crc32.cpp:11-15 | Exclusive or, on the bits of unbounded numbers |
| `Unsigned.SameBits` | protocol/src/Crc32.cpp:8 | A number below a power of two is determined by its bits |
| `Crc32Words.ConsumeLinear` | protocol/src/Crc32.cpp:11-16 | Consuming a bit is linear in register and bit together |
| `Crc32Words.ConsumeInjective` | protocol/src/Crc32.cpp:14-16 | and injective in the register |
| `Crc32Words.StepsInjective` | protocol/src/Crc32.cpp:12-16 | So is any number of steps |
| `Crc32Words.RunLinear` | protocol/src/Crc32.cpp:9-17 | Whole messages are consumed linearly |
| `Crc32Words.RunLoaded` | protocol/src/Crc32.cpp:11-16 | Adding up to 32 message bits first and stepping afterwards is consuming them one by one |
| `Crc32Words.RunWord` | protocol/src/Crc32.cpp:11-16 | The same for bits that a word holds exactly |
| `Crc32Words.BurstVanishesIff` | protocol/src/Crc32.cpp:9-17 | A burst of at most 33 bits takes the zero register back to zero exactly if there is none or it is the generator |
| `Crc32Laws.RegisterIsRun` | protocol/src/Crc32.cpp:9-17 | The register over bytes is the bit-serial run over the message's bits, lowest bit of each byte first |
| `Crc32Laws.TableStep` | protocol/src/Crc32.cpp:12-16 | Eight steps are one table entry and a shift by a byte |
| `Crc32Laws.SameConsumption` | protocol/src/Crc32.cpp:11-16 | A byte is consumed alike bit by bit and by table |
| `Crc32Detects.CrcBits` | protocol/src/Crc32.cpp:8-18 | The checksum is the run from all ones, complemented |
| `Crc32Detects.SameCrcIff` | protocol/src/Crc32.cpp:5-19 | Equal checksums mean that the difference takes the zero register to zero |
| `Crc32Detects.ResidueIff` | protocol/src/Crc32.cpp:5-19 | The checksum of a message with 32 bits appended is that of four zero bytes just if the bits are the message's checksum |
| `Crc32Residue.XorByDigits` | protocol/src/Crc32.cpp:15 | Exclusive or of 32-bit numbers, digit by digit in base 16 |
| `Crc32Residue.NextIs` | protocol/src/Crc32.cpp:14-15 | One step of the register, on its hexadecimal digits |
| `Crc32Residue.StepsOfOnes` | protocol/src/Crc32.cpp:12-16 | What 32 zero bits make of all ones |
| `Crc32Residue.ZerosCrc` | protocol/src/Crc32.cpp:5-19 | Four zero bytes have the checksum 0x2144DF1C |
| `GizmoGrid.GridFitsIff` | game/Engine/ImGuizmo.cpp:2859-2909 | What the lines of all grids keep for one matrix is right for another, as shown by it, if and only if the two matrices take the same points of the plane y = 0 to clip space |
| `GizmoGrid.DrawGrid` | game/Engine/ImGuizmo.cpp:2859-2913 | Two lines at every whole step from -gridSize to gridSize, 2*(floor(2*gridSize)+1) in all and none for a negative size: the lines numbered by a step go through it across the grid and along it, each cut for the view and projection, its ends transformed by the product with the grid's matrix |
| `GizmoGrid.GridLine` | game/Engine/ImGuizmo.cpp:2869-2908 | One of these lines |
| `GizmoGrid.MovedGrid` | game/Engine/ImGuizmo.cpp:2859-2908 | With a grid moved three units to the right, the edge of a grid in plain view is kept by the clipping, and both ends of what is kept are drawn outside clip space |
| `GizmoGrid.UnmovedGrid` | game/Engine/ImGuizmo.cpp:2859-2908 | With the identity as the grid's matrix, lines are drawn as they were cut |
| `GizmoGrid.ProductMovesFirst` | game/Engine/ImGuizmo.cpp:2860-2863 | A point drawn with the product is the point that the grid's matrix moves it to, drawn with the view and projection |
| `GizmoGrid.LineThrough` | game/Engine/ImGuizmo.cpp:2864-2870 | Through every point of the plane goes a line of some grid |
| `GizmoGrid.FirstAreAll` | game/Engine/ImGuizmo.cpp:2865-2870 | The lines of the loop are those of all whole steps |
| `GizmoFrustum.CutLine` | game/Engine/ImGuizmo.cpp:2869-2897 | Cutting a line against the planes of a matrix leaves exactly its points that the matrix takes to clip space; the ends left are on the line and in clip space, and the line is invisible exactly when there is no such point |
| `GizmoFrustum.PartShown` | game/Engine/ImGuizmo.cpp:2869-2897 | For every matrix and segment there is such a part, or nothing to be shown |
| `GizmoClip.Clip` | game/Engine/ImGuizmo.cpp:2871-2897 | If the segment stays visible, both ends are inside all six planes, both lie on the original, and a point of the original is inside all six exactly if it lies on the result; if not, no point of the original was inside |
| `GizmoClip.CutByPlane` | game/Engine/ImGuizmo.cpp:2874-2896 | One plane: what is left is the part of the segment inside this and all earlier planes |
| `GizmoClip.CutIsIntersection` | game/Engine/ImGuizmo.cpp:2872-2897 | The part left after all planes is the intersection |
| `GizmoClip.BothOutside` | game/Engine/ImGuizmo.cpp:2876-2880 | Both ends behind one plane: no point of the original is inside all |
| `GizmoClip.FirstOutside` | game/Engine/ImGuizmo.cpp:2885-2890 | Moving the first end to the crossing keeps the invariant |
| `GizmoClip.SecondOutside` | game/Engine/ImGuizmo.cpp:2891-2896 | and so does moving the second |
| `Segments.DistanceMixes` | game/Engine/ImGuizmo.cpp:931-934 | The distance from a plane is affine along a segment |
| `Segments.AlongAlong` | game/Engine/ImGuizmo.cpp:197-203 | A point along a part of a segment is a point along the whole |
| `Segments.NoCrossing` | game/Engine/ImGuizmo.cpp:2876-2884 | Between two points on one side all points are on that side |
| `Segments.Crossing` | game/Engine/ImGuizmo.cpp:2885-2896 | The quotient of distances is a proper fraction that hits the plane, within the segment |
| `Segments.BelowBefore` | game/Engine/ImGuizmo.cpp:2885-2896 | Everything beyond the crossing is outside |
| `GizmoClip.VecT.Lerp` | game/Engine/ImGuizmo.cpp:197-203 | In place, the point at t on the way to v |
| `GizmoClip.DistanceToPlane` | game/Engine/ImGuizmo.cpp:931-934 | The plane equation at the point |
| `GizmoFrustum.ComputeFrustumPlanes` | game/Engine/ImGuizmo.cpp:2706-2742 | A point is on the inner side of all six planes exactly when its transform satisfies -w <= x, y, z <= w |
| `GizmoFrustum.SixTests` | game/Engine/ImGuizmo.cpp:2706-2742 | The six one-sided conditions together are the clip-space condition |
| `GizmoFrustum.CombinedBounds` | game/Engine/ImGuizmo.cpp:2708-2736 | Each plane, a sum or difference of two columns of the matrix, bounds one coordinate of the transform |
| `GizmoFrustum.RawPlanes` | game/Engine/ImGuizmo.cpp:2708-2736 | The six assignments, before normalising |
| `GizmoFrustum.Normalize` | game/Engine/ImGuizmo.cpp:222 | Scales by some positive factor, also below the epsilon |
| `GizmoFrustum.TransformPoint` | game/Engine/ImGuizmo.cpp:428-441 | In place, the product of the row vector (x, y, z, 1) and the matrix |
| `GizmoMatrix.Inverse` | game/Engine/ImGuizmo.cpp:479-552 | For every determinant but zero the result is an inverse on both sides, and the determinant is returned; also in place |
| `GizmoMatrix.WriteAdjugate` | game/Engine/ImGuizmo.cpp:479-541 | The sixteen sums of cached pairs are the adjugate, and the first row gives the determinant |
| `GizmoMatrix.Pairs` | game/Engine/ImGuizmo.cpp:491-504 | The twelve cached products |
| `GizmoMatrix.SumsAreCofactors` | game/Engine/ImGuizmo.cpp:506-538 | Sums of cached products are 3x3 cofactors |
| `GizmoMatrix.AdjugateDot` | game/Engine/ImGuizmo.cpp:540-541 | A row of cofactors times a row of the matrix: the determinant for its own row, zero for the others |
| `GizmoMatrix.AdjugateTransposed` | game/Engine/ImGuizmo.cpp:481-489 | Transposing first gives the transposed adjugate |
| `GizmoMatrix.LeftInverse` | game/Engine/ImGuizmo.cpp:543-548 | The scaled adjugate is a left inverse |
| `GizmoMatrix.RightInverse` | game/Engine/ImGuizmo.cpp:543-548 | and a right inverse |
| `GizmoMatrix.MatrixProduct` | game/Engine/ImGuizmo.cpp:78-99 | Row by row, the matrix product |
| `GizmoMatrix.UnitDeterminant` | game/Engine/ImGuizmo.cpp:540-541 | The unit matrix has determinant 1, which fixes the sign and the scale |
| `Determinants.SwapFirst` | game/Engine/ImGuizmo.cpp:540-541 | Exchanging the first two rows negates the determinant |
| `Determinants.Repeats` | game/Engine/ImGuizmo.cpp:540-541 | A repeated row makes it zero |
| `Determinants.Reordered` | game/Engine/ImGuizmo.cpp:506-538 | Its sign under the row orders used for the later cofactors |
| `Determinants.DetTransposed` | game/Engine/ImGuizmo.cpp:481-489 | A matrix and its transpose have one determinant |
| `CollisionRuns.RunIsOrderly` | game/Engine/Scene.cpp:196-264 | Over every run in which two colliders keep their relative order, what each is told of the other is a prefix of (Enter Stay* Exit)*, and a contact is open exactly while the last comparison found them touching, also across deactivation |
| `CollisionRuns.OrderlyIff` | game/Engine/Scene.cpp:213-264 | For any sequence of orders in which frames meet a pair, frames that do not meet it included: every run in these orders tells the pair so, whatever the contacts, if and only if the orders are all the same |
| `CollisionRuns.ComparisonsHappen` | game/Engine/Scene.cpp:213-264 | Every sequence of comparisons of a pair happens in some run of frames, which tells the pair the trace of it |
| `CollisionRuns.ChangeIsDisorder` | game/Engine/Scene.cpp:224-240 | A pair in constant contact that changes places is told Enter at least twice and never Exit |
| `CollisionRuns.RunTells` | game/Engine/Scene.cpp:213-263 | What a pair has been told over any run is the trace of its comparisons, order included |
| `CollisionRuns.RunRegisters` | game/Engine/Scene.cpp:231-259 | The map holds the last comparison of each ordered pair |
| `CollisionRuns.SameOrderIsOrderly` | game/Engine/Scene.cpp:236-261 | Comparisons in one order give an orderly trace |
| `CollisionRuns.FrameTells` | game/Engine/Scene.cpp:213-263 | A frame tells a pair exactly what its one comparison yields |
| `CollisionRuns.SeenLaw` | game/Engine/Scene.cpp:224-261 | A compared pair is told by the old entry and the contact; its entry becomes the contact, the reverse entry stays |
| `CollisionRuns.UnseenLaw` | game/Engine/Scene.cpp:214-221 | A pair with an inactive or absent collider is told nothing and keeps its entry |
| `CollisionRuns.BothTold` | game/Engine/Scene.cpp:243-258 | Both sides of a pair get the same events, at most one per frame |
| `CollisionRuns.PairLaw` | game/Engine/Scene.cpp:213-261 | A frame and two colliders: if both are active, both are told Enter, Stay or Exit by the old entry under their ids and the contact, or nothing, and the entry becomes the contact; if not, both are told nothing and the entry stays |
| `CollisionRuns.ComparisonLaw` | game/Engine/Scene.cpp:213-226 | Two colliders are compared exactly when both are active, the earlier one first |
| `CollisionRuns.Play` | game/Engine/Scene.cpp:196-264 | The scene's loops, frame after frame, produce such a run |
| `Collisions.Scene.CheckCollision` | game/Engine/Scene.cpp:213-263 | The map and the delivered events after a frame are those of every active pair, each compared once, in order |
| `Collisions.Scene.CheckRow` | game/Engine/Scene.cpp:217-262 | One row of the pairs |
| `Collisions.Scene.Compare` | game/Engine/Scene.cpp:224-261 | One pair: entry made, events by the edge, entry updated, no other entry touched |
| `Collisions.NotYetCompared` | game/Engine/Scene.cpp:213-233 | A pair's entry is still that of the frame before when its turn comes |
| `Collisions.KeyInjective` | game/Engine/Scene.h:9-15 | Different ordered pairs of ids have different keys |
| `CircleInScene.SnapshotHolds` | game/Client/BiancaESkillCircle.cpp:22-34 | With the damage flag on when the collisions of a frame are found, and not set before the read, a reader in the next frame sees another object exactly if the two were touching in that frame and at their comparison before in the same order |
| `CircleInScene.StayReceivedIff` | game/Engine/Scene.cpp:247-251 | Stay is delivered exactly then |
| `SkillCircle.SeesContactsIff` | game/Client/BiancaESkillCircle.cpp:22-34 | A reader of the next frame sees that frame's contacts, whatever they are, if and only if the flag was on and no one set it in between |
| `SkillCircle.SeenNext` | game/Client/BiancaESkillCircle.cpp:22-34 | What a reader sees at any point of the next frame's updates |
| `SkillCircle.FramePublishes` | game/Client/BiancaESkillCircle.cpp:22-28 | A frame publishes its own contacts and nothing older, and starts the next one empty |
| `SkillCircle.CollectsContacts` | game/Client/BiancaESkillCircle.cpp:30-34 | Contacts are collected exactly while the flag is on |
| `SkillCircle.ReadsKeep` | game/Client/BiancaESkillCircle.cpp:22-34 | Reading changes nothing; setting the flag empties the snapshot |
| `SkillCircle.FlagAsLastSet` | game/Client/BiancaESkillCircle.cpp:30-34 | The flag is as it was last set, or as before |
| `SkillCircle.BiancaESkillCircle.LateUpdate` | game/Client/BiancaESkillCircle.cpp:22-28 | What was collected is published, nothing is collected any more, the flag stays |
| `SkillCircle.BiancaESkillCircle.OnCollision` | game/Client/BiancaESkillCircle.cpp:30-34 | With the flag on the contact joins those collected; nothing else changes |
| `SkillCircle.BiancaESkillCircle.DamageFlag` | game/Client/BiancaESkillCircle.cpp:30-34 | Sets the flag that these lines read, and empties both sets (inline in the header, line 20) |
| `SkillCircle.BiancaESkillCircle.GetCollisionObjects` | game/Client/BiancaESkillCircle.cpp:25-26 | Returns the snapshot published here (inline in the header, line 21) |
| `GridSurface.GridIsSurface` | game/Engine/GeometryHelper.cpp:753-774 | For every size the indices are in range, no directed edge repeats, and an edge has its reverse exactly when it is not on the border |
| `GridSurface.PointsOriented` | game/Engine/GeometryHelper.cpp:755-772 | No directed edge repeats, in grid points |
| `GridSurface.PointsReverse` | game/Engine/GeometryHelper.cpp:755-772 | An edge has its reverse exactly when it is not on the border, in grid points |
| `GridSurface.SamePlace` | game/Engine/GeometryHelper.cpp:755-772 | A directed edge determines where in the list it starts |
| `GridSurface.IndexInRange` | game/Engine/GeometryHelper.cpp:737-772 | Every index names a vertex, the one at its grid point |
| `GridSurface.GridRenamed` | game/Engine/GeometryHelper.cpp:762-770 | Vertex numbers stand for grid points one to one |
| `Renaming.OrientedRenamed` | game/Engine/GeometryHelper.cpp:762-770 | Orientation carries over to renamed vertices |
| `Renaming.ReverseRenamed` | game/Engine/GeometryHelper.cpp:762-770 | and so do reverse edges |
| `GridMesh.CreateGrid` | game/Engine/GeometryHelper.cpp:735-774 | One vertex for each x and z, row by row, at (x, z) with texture coordinates (x, sizeZ - z); two triangles for each cell, row by row, from (x, z+1) over (x+1, z) to (x, z) and from (x+1, z) over (x, z+1) to (x+1, z+1); nothing for sizes that are not positive |
| `GridMesh.AllVertices` | game/Engine/GeometryHelper.cpp:735-749 | What the loops push, as vertices by x and z |
| `GridMesh.AllTriangles` | game/Engine/GeometryHelper.cpp:753-772 | What the loops push, as triangles by cell |
| `GridMesh.TurnsAlike` | game/Engine/GeometryHelper.cpp:757-771 | Every triangle of the grid turns the same way and is half a cell large |
| `GridMesh.PushCell` | game/Engine/GeometryHelper.cpp:757-771 | The six indices of one cell |
| `GridMesh.CellOf` | game/Engine/GeometryHelper.cpp:755-771 | Which cell and corner a place in the list belongs to |
| `ConeMesh.ConeClosedIff` | game/Engine/GeometryHelper.cpp:891-985 | With seam copies and rings identified, the cone is a closed oriented surface if and only if it has at least three slices or none |
| `ConeMesh.SameEdge` | game/Engine/GeometryHelper.cpp:966-983 | From three slices on no directed edge repeats |
| `ConeMesh.EveryReverse` | game/Engine/GeometryHelper.cpp:966-983 | Every edge has its reverse, for any number of slices |
| `ConeMesh.TwiceWhenFew` | game/Engine/GeometryHelper.cpp:966-983 | With one or two slices a directed edge repeats |
| `ConeMesh.IndexInRange` | game/Engine/GeometryHelper.cpp:966-983 | Indices are below 2n+4 |
| `ConeMesh.CreateCone` | game/Engine/GeometryHelper.cpp:891-985 | The vertices are the centre, the base's ring, the sides' ring and the tip; the first triangles are those of the base, from the centre over slot i to slot i+1 of its own ring, the others those of the sides, from the tip over slot i+1 to slot i of theirs |
| `ConeMesh.EveryVertexUsed` | game/Engine/GeometryHelper.cpp:966-983 | Every vertex is a corner of some triangle |
| `ConeMesh.ConeShape` | game/Engine/GeometryHelper.cpp:966-983 | What the loops push, as triangles between neighbouring slots |
| `TerrainPick.PicksIffMeshHit` | game/Engine/Terrain.cpp:57-91 | Picking succeeds if and only if the ray meets some triangle of the grid mesh, when meeting does not depend on the order of the corners |
| `TerrainPick.TestsMeshTriangles` | game/Engine/Terrain.cpp:61-83 | Each pair of a cell is the mesh's pair of triangles, the first with its corners in the opposite order |
| `TerrainPick.TestsByCell` | game/Engine/Terrain.cpp:61-83 | The tests of a cell: its near corner with the next two, then its far corner with the same two, in this order of corners |
| `TerrainPick.TestsInAll` | game/Engine/Terrain.cpp:57-59 | Two tests for each cell, and no others |
| `TerrainPick.Pick` | game/Engine/Terrain.cpp:57-91 | The first triangle met, in mesh order, gives position and distance; if none is, the position is untouched and the distance is what the last attempt left, or as before if there was none |
| `TerrainPick.PickRow` | game/Engine/Terrain.cpp:59-88 | One row |
| `TerrainPick.PickCell` | game/Engine/Terrain.cpp:61-87 | One cell |
| `ImVector.AmortisedCost` | game/Engine/imgui.h:1801-1813 | Over every sequence of additions and removals, size is at most capacity and reallocations have copied fewer than four elements for each addition |
| `ImVector.Vector.Reserve` | game/Engine/imgui.h:1805 | Contents stay; a larger block is allocated, and all elements copied, exactly when it is needed; the capacity is then the one asked for |
| `ImVector.Vector.Resize` | game/Engine/imgui.h:1802 | The old contents stay as far as they fit; a capacity that is too small grows to half as much again, or to 8 from none, and at least to the size |
| `ImVector.Vector.PushBack` | game/Engine/imgui.h:1809 | One element more at the end; only a full block grows, to half as much again or to 8 from none, and at least by one, and then all elements are copied |
| `ImVector.Vector.PopBack` | game/Engine/imgui.h:1810 | One less at the end |
| `ImVector.Vector.Insert` | game/Engine/imgui.h:1815 | The element at its place, the tail shifted by one; the block grows as for an element at the end |
| `ImVector.Vector.ShiftIn` | game/Engine/imgui.h:1815 | The move inside the block |
| `ImVector.Vector.PushFront` | game/Engine/imgui.h:1811 | One element more in front |
| `ImVector.Vector.Erase` | game/Engine/imgui.h:1812 | One element out, the tail shifted |
| `ImVector.Vector.EraseRange` | game/Engine/imgui.h:1813 | A range out, the tail shifted |
| `ImVector.Vector.EraseUnsorted` | game/Engine/imgui.h:1814 | The last element takes the place of the one removed |
| `ImVector.Vector.Find` | game/Engine/imgui.h:1817 | The first occurrence, or the end |
| `ImVector.Vector.FindErase` | game/Engine/imgui.h:1819 | Removes the first occurrence only; true exactly if there was one |
| `ModelBinding.FirstStays` | game/Engine/Model.cpp:291-300 | A name that was found keeps its first match when materials are appended |
| `ModelBinding.Model.BindCacheInfo` | game/Engine/Model.cpp:345-385 | Every mesh has the first material of its material's name, or null if none has it, and the bone of its index, or null if there is none; every linked bone has the parent that its index names; the hierarchy is linked once and never again |
| `ModelBinding.Model.ReadMaterial` | game/Engine/Model.cpp:134-141 | After materials are appended every mesh has the first of its name in the final list, or null; no link is added |
| `ModelBinding.Model.ReadModel` | game/Engine/Model.cpp:144-213 | Bones and meshes are appended as read, every mesh has the first material of its name and the bone of its index or null, and only the first file's bones are linked, each to the parent its index names |
| `ModelBinding.Model.BindCaches` | game/Engine/Model.cpp:347-365 | Filling only empty caches gives every mesh the first material of its name and the bone of its index, or null |
| `ModelBinding.Model.LinkBones` | game/Engine/Model.cpp:367-384 | Links all bones if there is no root yet, and nothing otherwise |
| `ModelBinding.Model.LinkAll` | game/Engine/Model.cpp:372-383 | All parents and all children lists |
| `ModelBinding.Model.LinkBone` | game/Engine/Model.cpp:374-382 | One bone is linked to its parent and appended to that parent's list only |
| `ModelBinding.Model.GetMaterialByName` | game/Engine/Model.cpp:291-300 | A material of the list that has the name and before which none has it; null exactly when none has it |
| `ModelBinding.FirstIsNamed` | game/Engine/Model.cpp:291-300 | What the search finds is the first material of the name, or null if there is none |
| `ModelBinding.Model.GetBoneByIndex` | game/Engine/Model.cpp:364 | The bone at the index, or null outside, negative numbers included (inline in Model.h, line 32) |
| `ModelBinding.Model.ReadBones` | game/Engine/Model.cpp:152-167 | Bones are appended in order |
| `ModelBinding.Model.ReadMeshes` | game/Engine/Model.cpp:170-210 | Meshes are appended in order |
| `ModelBinding.Model.AddBone` | game/Engine/Model.cpp:157-165 | One bone |
| `ModelBinding.Model.AddMesh` | game/Engine/Model.cpp:175-208 | One mesh |
| `BoneForest.ParentsAndChildren` | game/Engine/Model.cpp:372-383 | A linked bone is in a bone's list once if that bone is its parent and not at all otherwise |
| `BoneForest.ChildOnce` | game/Engine/Model.cpp:372-383 | Lists are built without repetition |
| `BoneForest.ChildrenInOrder` | game/Engine/Model.cpp:372-383 | Children are listed in the order of the bones |
| `BoneForest.ChildrenAreLinked` | game/Engine/Model.cpp:372-383 | Everything in a list is a linked bone whose parent is the list's owner |
| `BoneForest.ChainsEnd` | game/Engine/Model.cpp:372-383 | When parents come before children, every chain of parents ends at a root |
| `Packages.VerifiedIsSealed` | scripts/game_packages.py:122-145 | With a collision-free hash, a package that verifies against the pin of a sealed one has exactly the sealed paths and contents, and the sealed manifest |
| `Packages.SealedVerifies` | scripts/game_packages.py:103-145 | Every sealed package verifies against its pin, in every configuration |
| `Packages.Seal` | scripts/game_packages.py:103-119 | Succeeds exactly when there is a file and every file is permitted, and then writes the manifest of all files, each once with size and digest and in the order of their paths, and returns the pin that identifies it; otherwise writes nothing and says why, for the first file in that order that is not permitted |
| `Packages.Verify` | scripts/game_packages.py:122-145 | Accepts exactly the packages whose manifest has the pinned digest, decodes, is of this schema, revision, kind and configuration, and lists every file once with its size and digest, all permitted, with the pinned count and total |
| `Packages.CheckIff` | scripts/game_packages.py:77-94 | A path is refused exactly if it is not permitted: absolute, with a name "..", a colon or a backslash; outside Resources for assets; for the SDK neither a header of a component nor one of the libraries and runtime files listed for its configuration |
| `Packages.CheckReason` | scripts/game_packages.py:79-94 | The reasons, unsafe paths first |
| `PackageFiles.ListedPermitted` | scripts/game_packages.py:18-31 | Every library and runtime file listed for a configuration is permitted in its SDK |
| `PackageFiles.LibrariesOnly` | scripts/game_packages.py:84-88 | Under Lib/ only the libraries of the configuration are permitted |
| `PackageFiles.RuntimeOnly` | scripts/game_packages.py:85-89 | Under Runtime/ only the runtime files of the configuration are permitted |
| `PackagePaths.NamesPlaced` | scripts/game_packages.py:78-87 | The names of a path are exactly what stands between its slashes, in order, without empty names and dots |
| `Packages.AcceptedIff` | scripts/game_packages.py:126-144 | What verification asks of its listing is what the package is |
| `Packages.OnceEachIff` | scripts/game_packages.py:136 | A list has the tree's paths as its members just if it names each once and no other |
| `Packages.TotalJoined` | scripts/game_packages.py:116 | The total size of lists put together is the sum of their totals |
| `Packages.TotalOfOne` | scripts/game_packages.py:116 | and that of one entry is its size |
| `Packages.AcceptedIsManifest` | scripts/game_packages.py:126-142 | What is accepted against the hash of a manifest contains that manifest, its paths and its files |
| `Packages.InventoryIs` | scripts/game_packages.py:60-74 | The inventory is every file but the manifest, once |
| `Texts.SortedSorts` | scripts/game_packages.py:74 | The inventory is in order, with everything in it once for each time it was listed |
| `Texts.LeqIff` | scripts/game_packages.py:74 | One text is sorted before another just if it is its beginning or has the smaller character where they first differ |
| `Sorting.SortAscends` | scripts/game_packages.py:74 | Sorting by any order puts a list in order |
| `Sorting.SortAdds` | scripts/game_packages.py:74 | and keeps its members, repeated ones too |
| `Sorting.SortStable` | scripts/stage_game_runtime.py:61 | and keeps the order of members that tie |
| `Texts.SortedUnique` | scripts/game_packages.py:136 | Lists with the same members have one sorted form |
| `Texts.SortedSameIff` | scripts/game_packages.py:136 | Equal sorted lists are permutations of each other and the reverse |
| `ManifestText.LinesOfPrint` | scripts/stage_game_runtime.py:61 | Splitting the printed manifest gives the printed lines, for every set of line ends from the newline alone to all that Python knows, if no path holds one of them |
| `ManifestText.LinesFree` | scripts/package_game_release.py:23 | No line of a split text holds what ends lines |
| `ManifestText.BrokenLine` | scripts/package_game_release.py:23-24 | A path that is split leaves a line without a tab, if no path holds a tab or a carriage return |
| `ManifestText.ParsersAgree` | game/Client/GameRuntime.h:80-84 | Both readers, one by fixed columns and one by the first tab, read a printed line back as it was |
| `ManifestText.FixedIff` | game/Client/GameRuntime.h:80-84 | At startup a line is read just if it is a digest of 64 characters, a tab and a path that is not empty |
| `ManifestText.SplitIff` | scripts/package_game_release.py:24 | The release script reads a line just if there is a tab: what stands before the first, and behind it |
| `ManifestText.LineUpTo` | scripts/package_game_release.py:23 | A text begins with the line up to its first line end |
| `ManifestText.LineUpToBoth` | scripts/package_game_release.py:23 | A carriage return and a newline together end one line |
| `ManifestText.LastLine` | scripts/package_game_release.py:23 | What no end closes is a line, if it is not empty |
| `RuntimeReaders.CountIsSize` | game/Client/GameRuntime.h:86-87 | As many lines are counted as there are paths just if none is listed twice |
| `RuntimeReaders.Prepare` | game/Client/GameRuntime.h:73-98 | True exactly for a manifest of the built-in hash whose lines parse, whose files match, whose two folders exist, and whose folder counts agree |
| `RuntimeReaders.CountingSuffices` | game/Client/GameRuntime.h:86-98 | Once the runtime is accepted, counting has forced a folder to hold exactly the listed files, paths compared as they are spelt, if and only if no path in it is listed twice |
| `RuntimeReaders.CollectRuntime` | scripts/package_game_release.py:14-34 | Collects the listed files, the executable and the manifest exactly if the executable's hash is right and every line is safe, new and matches its file |
| `RuntimeReaders.SafePathIff` | scripts/package_game_release.py:26-27 | A path is safe just if it is neither absolute nor holds a name "..", a colon or a backslash, and begins with the name Binaries, Resources or Shaders |
| `RuntimeReaders.CannotCollect` | scripts/package_game_release.py:26-32 | A bad line cannot be made good by the lines after it |
| `StagedRuntime.FreshIsPreparedIff` | game/Client/GameRuntime.h:73-98 | A staged runtime is accepted at startup, with the staged entries as its lines, if and only if no path holds a newline, entries of one path have one digest, and no path in the two counted folders is given twice; where no path holds a tab or a carriage return, it is accepted in no other way |
| `StagedRuntime.FreshIsCollectedIff` | scripts/package_game_release.py:22-34 | The release script collects a staged runtime, with the staged entries as its lines, if and only if no path holds a line separator or is given twice, and all are safe; where no path holds a tab or a carriage return, in no other way |
| `StagedRuntime.ListedIsParsedIff` | scripts/stage_game_runtime.py:61-62 | A reader parses the staged manifest into the sorted entries if and only if no path holds what ends its lines |
| `StagedRuntime.ParsedAsListed` | scripts/stage_game_runtime.py:61-62 | It parses it into these or not at all, where no path holds a tab or a carriage return |
| `StagedRuntime.ListedMatchIff` | game/Client/GameRuntime.h:80-85 | All listed files match their lines just if entries of one path have one digest |
| `StagedRuntime.PictureRepeatsAsset` | scripts/stage_game_runtime.py:46-47 | Collecting gives a picture the place of an asset of the same name |
| `StagedRuntime.PictureRejected` | scripts/stage_game_runtime.py:28-62 | Whatever was staged with it, a runtime with such a picture is rejected by both readers |
| `StagedExamples.ExampleIsRejected` | scripts/stage_game_runtime.py:28-62 | An asset, a shader and a picture of the asset's name, of any contents: staged into an empty directory they meet all that staging asks for, and both readers reject the result |
| `StagedExamples.ExampleItems` | scripts/stage_game_runtime.py:28-47 | These are what is collected from such files |
| `StagedExamples.ExampleIsPicture` | scripts/stage_game_runtime.py:44-45 | and the picture is one that collecting allows |
| `StagedExamples.SplitIsPreparedOnly` | scripts/package_game_release.py:23-24 | An asset whose name holds U+2028 and a shader, staged into an empty directory: the game accepts the result, and the release script never collects it |
| `StagedExamples.SplitIsAllowed` | scripts/game_packages.py:77-94 | Packages allow such an asset, and the release script calls its path safe |
| `Staging.CollectItems` | scripts/stage_game_runtime.py:28-47 | Refused exactly for a file whose name does not end in .png, .jpg or .dds, in either case and behind something; else, in order, the assets under their paths and the runtime libraries under Binaries/ and their last names with the recorded digests, and the shaders and pictures under their folders with the digests of what is in them |
| `Staging.IsPictureIff` | scripts/stage_game_runtime.py:44 | Which names are those of pictures |
| `Staging.AllAssembled` | scripts/stage_game_runtime.py:28-47 | Every entry of the list, by where it comes from |
| `Staging.BaseNameIs` | scripts/stage_game_runtime.py:34 | The last name of a path begins behind its last slash |
| `Staging.CopyFiles` | scripts/stage_game_runtime.py:48-53 | Every place holds a file with the digest of the last entry that names it; all other files are untouched |
| `Staging.CopiedContents` | scripts/stage_game_runtime.py:48-53 | With a collision-free hash, every place holds the contents of the last entry that names it |
| `Staging.Stage` | scripts/stage_game_runtime.py:48-62 | Succeeds exactly when no unlisted file was there and both folders exist, and then adds the manifest of all entries |
| `Staging.ItemsInOrder` | scripts/stage_game_runtime.py:61 | The manifest lists every entry, by path, and entries of one path as they were collected |
| `Staging.FolderIsListed` | scripts/stage_game_runtime.py:56-60 | A folder holds just the listed files exactly when nothing else was in it before |
| `StagedRuntime.FoldersAsListed` | scripts/stage_game_runtime.py:56-60 | Both folders of a staged runtime hold exactly the listed files |

## Left out

- Integer width: sizes, areas, capacities and mesh indices are unbounded, so that overflow of the source's 32-bit integers (waste areas, `w + align - 1`, capacities near the limit) is not modelled; the checksum's register and the collider keys are modelled at their real width.
- Floating point: `float` is modelled as `real`, without rounding.
- Crc32.Compute: a byte is a number below 256; spans and `std::byte` are not modelled.
- Rects.Qsort: the C library's sort (ImGui's own in this build) is modelled by some sort with the same contract, though a real one need not be stable; the results about packing use only the contract.
- PackRects.PackRects: widths and heights are natural numbers where it packs; negative sizes, which the library does not define, are not modelled.
- RectPack.Context.InitTarget: requires at least one node, a positive width and a height below the sentinel's 2^30, as the library expects of its callers.
- GizmoFrustum.Normalize: the length is a parameter, since only a positive factor matters; square roots are not modelled.
- GizmoMatrix.Inverse: the affine branch is not modelled, and a zero determinant, at which the source divides by zero, is excluded.
- GizmoGrid.DrawGrid: the colours and widths of the lines and the division by w are not modelled.
- Gizmo dragging, hovering and decomposition: dependent on the screen and on trigonometry.
- ConeMesh.CreateCone: positions, normals, tangents and texture coordinates are replaced by which point of the cone a vertex is; the angles need sine and cosine.
- CreateSphere, CreateCube and CreateQuad: fixed sizes, so that only finite checks would remain.
- TerrainPick.Pick: the ray and its intersection with a triangle are a parameter.
- Collisions.Scene.CheckCollision: whether two colliders touch and whether one is active are given per frame; event handlers that deactivate colliders while the loop runs, and colliders without an object, are not modelled. Ids are distinct, which the counter guarantees until it wraps around.
- SkillCircle.BiancaESkillCircle: objects are identified by their colliders' ids, and shared ownership is not modelled.
- The quadtree, the object manager and the order in which objects are destroyed.
- ImVector.Vector: elements are copied as values; arguments that refer into the array itself, which the header forbids, are not modelled, nor is freeing of memory. Running out of memory is not modelled.
- ModelBinding.Model.ReadModel: the parent indices of the first file must be below the number of bones, where the source would read outside the vector; file formats, geometry, buffers and animations are not modelled.
- Packages.Seal and Packages.Verify: SHA-256 is a function, collision-free where a result needs it; JSON is an encoding that decodes to what was encoded; the tree is a map from paths to contents, and symbolic links, empty directories and the order of directory walks are not modelled beyond the listing that is given.
- Packages.Verify: the error kinds stand for the messages, and a manifest that does not decode is an error like the others.
- RuntimeReaders.CountingSuffices: two spellings of one file, such as `Resources/a` and `Resources/./a`, are two paths; the source would count one file twice, as if its path were listed twice.
- StagedRuntime.FreshIsPreparedIff and StagedRuntime.FreshIsCollectedIff: entries have a path other than the manifest's and a digest of 64 characters, as staging collects them; that no other lines are accepted is proved where no path holds a tab or a carriage return, which the game's file system does not allow in names.
- RuntimeReaders.Prepare: reparse points, encodings and the folding of case in file names are not modelled; of directories only whether the two counted ones exist.
- Staging.Stage: entries carry the digest of their contents, which verification of the packages has established just before; of directories only whether the two watched ones exist, and the generated header is not modelled.
- Skill progression, run options, measurements, subprocesses and archives: they would add easy members only.
