# TileMosaic puzzle bookkeeping in Dafny

TileMosaic is an iOS memory game with two modes, Novice and Virtuoso. A level
first shows a grid of random tiles for a few seconds. It then cuts every tile
into 2 x 2 fragments, shuffles all the fragments into a bigger grid, and asks
the player to restore the picture. `MnemonicChamber` does this by tapping two
fragments to swap them. `TessellationAssembly` does it by dragging one fragment
to a new index. Reached levels go to a per-mode leaderboard that keeps the ten
best.

This project models that logic and proves properties of the model.

- **`Vestige`** (VestigeEntity.swift): the mode constants, the tile generator
  and the leaderboard record. It proves that a generated identifier determines
  the tile, and that there are 31 identifiers, which is enough for the largest
  grid.
- **`Fragmentation`** (FragmentationAlchemy.swift): cutting an image into a
  matrix, recomposing a matrix into a canvas, and the fragment record.
- **`Sequences`**: the `Array` edits the screens use, namely `swapAt`,
  `remove(at:)` followed by `insert(_:at:)`, and `shuffle()`. The shuffle is
  the standard library's forward Fisher-Yates pass.
- **`Arrangement`**: the fragment-list pipeline both screens share:
  - cut the tiles, giving each fragment its correct cell;
  - renumber the current cells from the list indices;
  - validate.

  It proves four facts:
  - when every tile loads, the correct cells are a bijection onto the puzzle
    grid;
  - relabelling, swapping and moving keep the same fragments;
  - a swap or drop is undone by the same swap or by the reverse drop;
  - a solved arrangement of the fragments exists and is unique.
- **`Persistence`** (PersistenceVault.swift): the per-mode leaderboard kept as
  a class over its defaults dictionary.
- **`Chamber`** and **`Assembly`** (MnemonicChamber.swift,
  TessellationAssembly.swift): the two screens as classes. Their fields are the
  controllers' state and their methods are the controllers' event handlers.
  Each class has a `Valid()` invariant: the puzzle holds exactly the fragments
  that were cut, and each fragment shows the cell its index determines.

Randomness and the outside world become parameters:

- **Tile draws:** a sequence of `Draw(category, value)`, which stands for
  `randomElement()` and `Int.random`.
- **Shuffle:** a stream of offsets that `Shuffle` reduces into range.
- **UUIDs:** a `Minting` function from tile and local cell to a string.
- **Image catalogue:** a function from asset name to an optional picture, standing for `UIImage(named:)`.
- **Crop outcomes:** a function from a lattice cell to an optional picture.
- **Now:** a `Timestamp`.

Three behaviours of the code matter to the model:

- **Sort ties.** The code's `sort` is not documented as stable, so the model
  leaves the order of equal levels open (`KeepsBest`). It does not take
  insertion order as the tie-break.
- **Short crop rows.** When a crop fails, the fragment's column is its
  position among the crops that did succeed, not its lattice column. This is
  what `enumerated()` over the shorter row gives.
- **No tile loads.** When no tile image loads, the build is empty, and an
  empty puzzle validates as solved at once (`NothingLoadsNothingBuilt`).

## Model

| member | source | states |
|---|---|---|
| Vestige.ProfileShape | TileMosaic/TileMosaic/VestigeEntity.swift:23-42 | the puzzle grid is twice the tile grid, so 4·gridDimension² = puzzleFragments²; every interval is positive and the grid holds at most 9 tiles |
| Vestige.GenerateArbitraryTile | TileMosaic/TileMosaic/VestigeEntity.swift:51-73 | the generated tile keeps the drawn category and value, its value is within 1...7 for qiwiea and 1...8 otherwise, and its image name and identifier are the raw value followed by the decimal value |
| Vestige.DecimalInjective | TileMosaic/TileMosaic/VestigeEntity.swift:69 | different numbers print as different decimal strings |
| Vestige.IdentifierInjective | TileMosaic/TileMosaic/VestigeEntity.swift:69-71 | an identifier determines its category and value |
| Vestige.IdentifierSpaceMembers | TileMosaic/TileMosaic/VestigeEntity.swift:55-73 | a string is in the identifier space exactly when some valid draw generates it |
| Vestige.IdentifierSpaceSize | TileMosaic/TileMosaic/VestigeEntity.swift:11-16 | the generator can produce exactly 8+8+8+7 = 31 identifiers |
| Vestige.FreshTileExists | TileMosaic/TileMosaic/MnemonicChamber.swift:213-220 | while fewer tiles than a grid holds are collected, some valid draw yields an unused identifier, so the unique-tile loop can progress |
| Fragmentation.DissectImageIntoFragments | TileMosaic/TileMosaic/FragmentationAlchemy.swift:12-51 | the nested crop loops return the row-major matrix of successful crops, or nothing without a backing bitmap |
| Fragmentation.CropRowShape | TileMosaic/TileMosaic/FragmentationAlchemy.swift:26-45 | a row holds at most k crops, exactly k when every crop succeeds, and then crop c is at column c |
| Fragmentation.DissectionShape | TileMosaic/TileMosaic/FragmentationAlchemy.swift:13-50 | no backing bitmap gives []; otherwise exactly n rows of at most n crops each, a row being full exactly when all its crops succeed |
| Fragmentation.DissectionFull | TileMosaic/TileMosaic/FragmentationAlchemy.swift:23-50 | when every crop succeeds the matrix is n x n with the crop of lattice cell (r, c) at [r][c] |
| Fragmentation.AmalgamateFragmentsIntoImage | TileMosaic/TileMosaic/FragmentationAlchemy.swift:53-86 | the guard, the canvas size and the draw loops compute the recomposition |
| Fragmentation.AmalgamationShape | TileMosaic/TileMosaic/FragmentationAlchemy.swift:54-81 | the model's recomposition is None exactly on an empty matrix or empty first row; otherwise the canvas is first-fragment width x columns by height x rows, and fragment (r, c) is drawn in row-major order at (c·w, r·h) |
| Fragmentation.MatrixPlacementAt | TileMosaic/TileMosaic/FragmentationAlchemy.swift:69-83 | the draw of fragment (r, c) comes after all draws of earlier rows and places it at (c·w, r·h) |
| Fragmentation.DissectThenAmalgamate | TileMosaic/TileMosaic/FragmentationAlchemy.swift:12-86 | cutting an image whose crops all succeed at w x h and recomposing the pieces gives an n·w x n·h canvas with crop (r, c) drawn at (c·w, r·h) |
| Fragmentation.Relocate | TileMosaic/TileMosaic/FragmentationAlchemy.swift:90-96 | assigning the current cell changes only the current cell: image, correct cell and identifier stay |
| Fragmentation.RelocateCorrectly | TileMosaic/TileMosaic/FragmentationAlchemy.swift:98-100 | a fragment placed at a cell is correctly positioned exactly when that cell is its correct one |
| Sequences.SwappedPermutes | TileMosaic/TileMosaic/MnemonicChamber.swift:509-511 | the swap keeps the multiset of entries and is its own inverse |
| Sequences.SwappedAt | TileMosaic/TileMosaic/MnemonicChamber.swift:509-511 | the swap exchanges the two entries and keeps every other |
| Sequences.MovedAt | TileMosaic/TileMosaic/TessellationAssembly.swift:335-336 | a drop puts the source's fragment at the destination, shifts those in between by one and keeps the rest; the length is unchanged |
| Sequences.MovedPermutes | TileMosaic/TileMosaic/TessellationAssembly.swift:335-336 | a drop keeps the multiset, the reverse drop restores the list, and a drop onto the source changes nothing |
| Sequences.Shuffle | TileMosaic/TileMosaic/MnemonicChamber.swift:308 | shuffling returns a permutation of its input |
| Arrangement.CreateFragmentsFromTiles | TileMosaic/TileMosaic/MnemonicChamber.swift:238-273 | the build loop skips tiles whose image is missing and appends each other tile's fragments row by row, as BuiltFragments defines |
| Arrangement.AppendTileFragments | TileMosaic/TileMosaic/TessellationAssembly.swift:148-164 | the two inner loops append one tile's matrix, fragment (r, c) getting correct and current cell (tileRow·2 + r, tileColumn·2 + c) |
| Arrangement.MatrixFragmentsInPlace | TileMosaic/TileMosaic/MnemonicChamber.swift:255-270 | a tile contributes one fragment per crop, each starting with current cell equal to correct cell |
| Arrangement.TileFragmentsCount | TileMosaic/TileMosaic/MnemonicChamber.swift:244-270 | a tile contributes at most 4 fragments, exactly 4 when its image loads and all crops succeed, none when its image is missing, all in place |
| Arrangement.FullTileFragments | TileMosaic/TileMosaic/MnemonicChamber.swift:252-270 | a loading tile gives its four fragments (0,0), (0,1), (1,0), (1,1) at (tileRow·2 + r, tileColumn·2 + c) with tileRow = t / g, tileColumn = t % g |
| Arrangement.BuiltFragmentsCount | TileMosaic/TileMosaic/TessellationAssembly.swift:137-163 | after k tiles the list holds at most 4k fragments, exactly 4k iff all k tiles load, all in place |
| Arrangement.MissingTileNoFragments | TileMosaic/TileMosaic/MnemonicChamber.swift:245 | a tile whose image is not in the catalogue contributes no fragments |
| Arrangement.MissingTilesSkipped | TileMosaic/TileMosaic/MnemonicChamber.swift:244-245 | when the first k tiles all miss their images, nothing has been built after them |
| Arrangement.NothingLoadsNothingBuilt | TileMosaic/TileMosaic/MnemonicChamber.swift:245 | when no tile image is in the catalogue the list is empty and trivially solved |
| Arrangement.FullBuildLayout | TileMosaic/TileMosaic/MnemonicChamber.swift:244-271 | when every tile loads, index i holds local cell ((i % 4) / 2, i % 2) of tile i / 4 |
| Arrangement.LaidOutCellInverse | TileMosaic/TileMosaic/MnemonicChamber.swift:252-258 | every index of a full build maps into the puzzle grid and the index is recoverable from its cell |
| Arrangement.BuildIndexInverse | TileMosaic/TileMosaic/MnemonicChamber.swift:252-258 | every cell of the puzzle grid is the correct cell of the build index computed from it |
| Arrangement.FullBuildCoversGrid | TileMosaic/TileMosaic/MnemonicChamber.swift:238-273 | when all gridDimension² tiles load, the puzzleFragments² correct cells are a bijection onto the puzzle grid |
| Arrangement.UpdateCurrentPositions | TileMosaic/TileMosaic/TessellationAssembly.swift:171-176 | the position loop gives index i the current cell (i / puzzleFragments, i % puzzleFragments) and changes nothing else |
| Arrangement.RelabelledFacts | TileMosaic/TileMosaic/MnemonicChamber.swift:311-316 | renumbering keeps length and fragments, makes every current cell index-derived, and is the identity on an already numbered list |
| Arrangement.RelabelledByPieces | TileMosaic/TileMosaic/MnemonicChamber.swift:514-519 | renumbering ignores the cells the fragments showed before |
| Arrangement.SwapTapsCancel | TileMosaic/TileMosaic/MnemonicChamber.swift:508-520 | swapping the same two fragments twice, renumbering each time, restores the puzzle |
| Arrangement.DropsCancel | TileMosaic/TileMosaic/TessellationAssembly.swift:335-344 | a drop followed by the reverse drop, renumbering each time, restores the puzzle |
| Arrangement.DropKeepsFragments | TileMosaic/TileMosaic/TessellationAssembly.swift:335-344 | a drop followed by renumbering keeps the length and the fragments and leaves every cell index-derived |
| Arrangement.PermutationKeepsFragments | TileMosaic/TileMosaic/MnemonicChamber.swift:305-308 | reordering whole fragments keeps the same fragments |
| Arrangement.SameFragmentsKeepCover | TileMosaic/TileMosaic/MnemonicChamber.swift:305-316 | the same fragments cover the puzzle grid in whatever order |
| Arrangement.ValidatePuzzleSolution | TileMosaic/TileMosaic/MnemonicChamber.swift:344-351 | validation is true exactly when every fragment is correctly positioned |
| Arrangement.SolvedUnique | TileMosaic/TileMosaic/TessellationAssembly.swift:191-198 | two numbered arrangements of the same fragments that both validate are equal, so the solution is unique |
| Arrangement.SolvedMeansRowMajor | TileMosaic/TileMosaic/MnemonicChamber.swift:344-351 | on a renumbered list, validation succeeds exactly when index i holds the fragment whose correct cell is (i / puzzleFragments, i % puzzleFragments) |
| Arrangement.SolvedOrderIsSolved | TileMosaic/TileMosaic/TessellationAssembly.swift:191-198 | listing a full build in row-major order of correct cells gives a numbered list that validates |
| Arrangement.SolvedOrderSameFragments | TileMosaic/TileMosaic/MnemonicChamber.swift:305-316 | that row-major listing holds the same fragments as the build |
| Arrangement.FullBuildSolvable | TileMosaic/TileMosaic/MnemonicChamber.swift:301-351 | when every tile loads, some numbered arrangement of the built fragments passes validation |
| Arrangement.RearrangedFullBuild | TileMosaic/TileMosaic/MnemonicChamber.swift:301-316 | in whatever order the built fragments are put, when all gridDimension² tiles load the list has puzzleFragments² fragments, covers the grid once and can be arranged to validate |
| Persistence.RecordsKeysDiffer | TileMosaic/TileMosaic/PersistenceVault.swift:13-14 | the two modes are stored under different keys |
| Persistence.InsertRanked | TileMosaic/TileMosaic/PersistenceVault.swift:29 | inserting into a ranked list keeps it ranked and adds exactly the record |
| Persistence.SortByStrataDescending | TileMosaic/TileMosaic/PersistenceVault.swift:29 | the sort returns a permutation ordered by level, highest first |
| Persistence.RankRecords | TileMosaic/TileMosaic/PersistenceVault.swift:28-34 | after sorting and cutting to ten the list is ranked, drawn from the pool, of length min(10, n), and no dropped record outranks a kept one |
| Persistence.KeepsBestFacts | TileMosaic/TileMosaic/PersistenceVault.swift:31-34 | a kept list never exceeds the cap, and when the pool fits nothing is dropped |
| Persistence.StoredUnderKey | TileMosaic/TileMosaic/PersistenceVault.swift:36-39 | writing a mode's list under its key reads back as that list and leaves every other key and the other mode's list unchanged |
| Persistence.PersistenceVault.RetrieveChronicles | TileMosaic/TileMosaic/PersistenceVault.swift:42-49 | nothing stored, or undecodable data, reads as the empty list |
| Persistence.PersistenceVault.ArchiveAccomplishment | TileMosaic/TileMosaic/PersistenceVault.swift:18-40 | the mode's list becomes the best ten of the old list plus the new record (mode raw value, level, now), it is written under the mode's key, and no other key or mode changes |
| Persistence.PersistenceVault.ObliterateAllChronicles | TileMosaic/TileMosaic/PersistenceVault.swift:51-54 | both keys are removed and nothing else; both modes then read as empty |
| Persistence.ArchiveOutcome | TileMosaic/TileMosaic/PersistenceVault.swift:25-34 | after a save the list has at most ten records in level order; below ten it grows by exactly the new record, at ten it stays at ten |
| Chamber.KeptFacts | TileMosaic/TileMosaic/MnemonicChamber.swift:213-220 | the unique-tile loop keeps pairwise distinct tiles, one per identifier drawn so far |
| Chamber.KeptDrawn | TileMosaic/TileMosaic/MnemonicChamber.swift:215-219 | every kept tile is the generated tile of one of the draws |
| Chamber.KeptGrowth | TileMosaic/TileMosaic/MnemonicChamber.swift:215-219 | each draw adds at most one tile |
| Chamber.DistinctIdentifiersCount | TileMosaic/TileMosaic/MnemonicChamber.swift:213-220 | tiles with distinct identifiers have as many identifiers as tiles |
| Chamber.DrawsRemain | TileMosaic/TileMosaic/MnemonicChamber.swift:214 | while the loop has not yet kept one tile per drawn identifier, a draw is left, so the loop ends within the draws |
| Chamber.DrawDistinctTiles | TileMosaic/TileMosaic/MnemonicChamber.swift:212-220 | the unique-tile loop returns exactly the requested number of tiles with pairwise distinct identifiers, namely those kept from the draws it consumed, and it stops at the first draw that completes the count |
| Chamber.MnemonicChamber.constructor | TileMosaic/TileMosaic/MnemonicChamber.swift:21-30 | a new chamber is at level 1, with no tiles or fragments, memorisation pending and no timer |
| Chamber.MnemonicChamber.MemorizationStartValid | TileMosaic/TileMosaic/MnemonicChamber.swift:205-236 | a full grid of distinct tiles on show, with no fragments and the countdown freshly started, satisfies the chamber invariant |
| Chamber.MnemonicChamber.InitiateMemorizationPhase | TileMosaic/TileMosaic/MnemonicChamber.swift:205-236 | the tiles are the first gridDimension² distinct draws, in order and with pairwise distinct identifiers; the loop stops at the first draw that fills the grid; fragments are empty, the phase is memorisation, remainingTime is memorizeInterval and the countdown runs |
| Chamber.MnemonicChamber.CountdownTick | TileMosaic/TileMosaic/MnemonicChamber.swift:275-287 | a tick takes one second off; the timer stops and the puzzle phase starts exactly when the time reaches zero |
| Chamber.MnemonicChamber.TransitionToPuzzlePhase | TileMosaic/TileMosaic/MnemonicChamber.swift:301-316 | the puzzle holds exactly the built fragments and shows index-derived cells, and the phase is no longer memorisation; when every tile loads, the fragments cover the puzzle grid once and a solved arrangement of them exists |
| Chamber.MnemonicChamber.UpdatePuzzlePositions | TileMosaic/TileMosaic/MnemonicChamber.swift:514-519 | the puzzle is renumbered and no other field changes |
| Chamber.MnemonicChamber.ValidatePuzzle | TileMosaic/TileMosaic/MnemonicChamber.swift:344-351 | true exactly when every fragment is correctly positioned; no state changes |
| Chamber.MnemonicChamber.SelectItem | TileMosaic/TileMosaic/MnemonicChamber.swift:503-528 | taps on the tiles view or during memorisation change nothing; a first tap only selects; a second tap swaps the two fragments if they differ, renumbers, and clears the selection; the invariant holds throughout |
| Chamber.MnemonicChamber.ViewWillDisappear | TileMosaic/TileMosaic/MnemonicChamber.swift:58-61 | leaving the screen stops the countdown and changes nothing else |
| Chamber.MnemonicChamber.ProceedToNextStrata | TileMosaic/TileMosaic/MnemonicChamber.swift:407-411 | the level goes up by exactly one, the selection is cleared, and a new memorisation phase starts with a full grid of new tiles |
| Chamber.MnemonicChamber.SaveRecordAndReturnHome | TileMosaic/TileMosaic/MnemonicChamber.swift:413-418 | a record is archived for the mode exactly when the level is above 1; otherwise the store is unchanged; the other mode's list never changes |
| Assembly.TessellationAssembly.constructor | TileMosaic/TileMosaic/TessellationAssembly.swift:18-35 | a new screen keeps the given mode, tiles and level, with no fragments |
| Assembly.TessellationAssembly.GeneratePuzzleFragments | TileMosaic/TileMosaic/TessellationAssembly.swift:130-179 | the flattened puzzle is a permutation of the built fragments and shows index-derived cells; when the tiles fill the grid and all load, they cover the puzzle grid once and a solved arrangement exists |
| Assembly.TessellationAssembly.ValidatePuzzle | TileMosaic/TileMosaic/TessellationAssembly.swift:191-198 | true exactly when every fragment is correctly positioned; no state changes |
| Assembly.TessellationAssembly.PerformDrop | TileMosaic/TileMosaic/TessellationAssembly.swift:327-351 | without a destination or a source nothing changes; otherwise the fragment moves from source to destination and every cell is renumbered, keeping the invariant |
| Assembly.TessellationAssembly.ProceedToNextStrata | TileMosaic/TileMosaic/TessellationAssembly.swift:254-257 | the next screen is a fresh memorisation chamber of the same mode at level currentStrata + 1 |
| Assembly.TessellationAssembly.SaveRecordAndReturnHome | TileMosaic/TileMosaic/TessellationAssembly.swift:270-275 | a record is archived exactly when the level is above 1, and the other mode's list never changes |

## Left out

- All UIKit and SnapKit views, layout, animation, labels and collection-view data sources (`orchestrateInterface`, the cell classes, `updateCountdownDisplay`, the reload calls) are presentation without state logic.
- Timer scheduling is out: `countdownActive` records only whether the timer is scheduled, and `CountdownTick` is one firing of its closure.
- The success and failure dialogs, Retry's pop to the root screen, and the navigation-stack replacement after `proceedToNextStrata` are navigation between screens.
- Drag-session plumbing (`itemsForBeginning`, `canHandle`, `dropSessionDidUpdate`) is out. A drop is modelled by its destination index and the source index of its first item, each optional.
- Assembly.TessellationAssembly.PerformDrop: both the source and the destination index are assumed to lie within the flattened fragments, as UIKit supplies them for a move inside one collection view; the code does not check them, and `remove(at:)` or `insert(_:at:)` traps when one is out of range.
- Fragmentation.AmalgamateFragmentsIntoImage: a failure of the graphics context is not modelled. `UIGraphicsGetImageFromCurrentImageContext()` can return nil, for instance on a zero-area canvas when the first fragment has width or height 0, while the model still returns a canvas there.
- Floating-point crop rectangles, `cgImage.cropping`, drawing and graphics contexts are out: images are opaque, the outcome of each crop is an input, and the canvas is its integer size plus its list of draws.
- The random sources (`randomElement`, `Int.random`, `shuffle`'s generator) and `UUID()` are parameters: draws, a shuffle offset stream and a minting function.
- JSON encoding and decoding, `UserDefaults` and `Date()` are abstracted. The store is a dictionary of encoded or undecodable values, and the time is a parameter. The encoder failing, which would make a save a silent no-op, is not modelled.
- Chamber.MnemonicChamber.InitiateMemorizationPhase: the caller must supply draws with at least gridDimension² distinct identifiers. Those are the only runs in which the source's unbounded loop ends, and `FreshTileExists` shows that such draws always exist.
- Chamber.MnemonicChamber.InitiateMemorizationPhase: it also requires an empty selection and a positive level. These hold at its two call sites, `viewDidLoad` and `proceedToNextStrata`.
- Sequences.Shuffle: it is proved to return a permutation, not a uniformly distributed one. Probability is not modelled.
- Persistence.SortByStrataDescending: the order of records with equal levels is not specified, because Swift's `sort` does not promise stability.
- Persistence.Decoded: it is the model of `JSONDecoder` with the `?? []` fallback, and carries no contract of its own. Its properties are stated where it is used: the read-back in `StoredUnderKey`, and the empty result for a missing or undecodable value in `RetrieveChronicles` and `ObliterateAllChronicles`.
- Chamber.MnemonicChamber.SelectItem: the tapped item is assumed to lie within the puzzle, as UIKit supplies it. The code does not check it: a first tap out of range only records the index, and the later `swapAt` traps.
- Chamber.MnemonicChamber.ProceedToNextStrata: the level is an unbounded integer, so the trap of `currentStrata += 1` on `Int` overflow is not modelled.
- Assembly.TessellationAssembly.ProceedToNextStrata: likewise, the trap of `currentStrata + 1` on `Int` overflow is not modelled.
- Chamber.DrawDistinctTiles: the loop collects the tiles in a local list that is then stored in `originalTiles`, where the code appends to the field directly. Nothing observes the field while the loop runs, so the outcome is the same.
- Both `createFragmentsFromTiles` and the building part of `generatePuzzleFragments` are modelled once, by `Arrangement.CreateFragmentsFromTiles`, because the two loops are identical.
- The `puzzleFragments` matrix of `TessellationAssembly` is modelled only as a field that stays empty, because the code only ever resets it.
- No file in the repository constructs `TessellationAssembly`. It is still modelled as written.
