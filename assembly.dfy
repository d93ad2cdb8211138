/**
 * The drag-and-drop game screen (TessellationAssembly.swift): the given tiles
 * are cut into fragments and shuffled, and the player drags one fragment at a
 * time to a new index until every fragment is in its own cell.
 */
module Assembly {
  import opened Wrappers
  import opened Vestige
  import opened Fragmentation
  import opened Sequences
  import opened Arrangement
  import opened Persistence
  import opened Chamber

  /** `TessellationAssembly`, without its views. */
  class TessellationAssembly {
    const difficulty: Difficulty
    const originalTiles: seq<Tile>
    const currentStrata: int
    /** Declared row-by-row store; the screen only ever resets it. */
    var puzzleFragments: seq<seq<Fragment>>
    var fragmentsFlattened: seq<Fragment>
    /** The fragments the tiles were cut into, before shuffling. */
    ghost var createdFragments: seq<Fragment>

    /**
     * Every entry point keeps the flattened puzzle holding exactly the cut
     * fragments, each showing the cell its index determines.
     */
    ghost predicate Valid()
      reads this
    {
      Positioned(fragmentsFlattened, PuzzleFragments(difficulty))
      && SameFragments(fragmentsFlattened, createdFragments)
      && puzzleFragments == []
    }

    /** `init(difficulty:tiles:strata:)`. */
    constructor (difficulty: Difficulty, tiles: seq<Tile>, strata: int)
      ensures Valid()
      ensures this.difficulty == difficulty && originalTiles == tiles && currentStrata == strata
      ensures puzzleFragments == [] && fragmentsFlattened == [] && createdFragments == []
    {
      this.difficulty := difficulty;
      originalTiles := tiles;
      currentStrata := strata;
      puzzleFragments := [];
      fragmentsFlattened := [];
      createdFragments := [];
    }

    /**
     * `generatePuzzleFragments` (run by `viewDidLoad`): cuts the tiles,
     * shuffles the fragments (the shuffle's randomness is `shuffleDraw`) and
     * gives each the cell its index determines. When the tiles fill the grid
     * and every image loads, the fragments cover the puzzle grid once each and
     * some arrangement of them passes validation.
     */
    method GeneratePuzzleFragments(assets: Assets, cropping: Cropping, mint: Minting, shuffleDraw: nat -> nat)
      modifies this
      ensures Valid()
      ensures createdFragments == BuiltFragments(originalTiles, difficulty, assets, cropping, mint, |originalTiles|)
      ensures SameFragments(fragmentsFlattened, createdFragments)
      ensures Positioned(fragmentsFlattened, PuzzleFragments(difficulty))
      ensures |originalTiles| == GridDimension(difficulty) * GridDimension(difficulty)
              && (forall t :: 0 <= t < |originalTiles| ==> TileLoads(originalTiles[t], assets, cropping))
              ==> |fragmentsFlattened| == PuzzleFragments(difficulty) * PuzzleFragments(difficulty)
                  && CoversGridOnce(fragmentsFlattened, PuzzleFragments(difficulty))
                  && exists s :: SameFragments(s, fragmentsFlattened)
                                 && Positioned(s, PuzzleFragments(difficulty)) && Solved(s)
    {
      puzzleFragments := [];
      fragmentsFlattened := CreateFragmentsFromTiles(originalTiles, difficulty, assets, cropping, mint);
      createdFragments := fragmentsFlattened;
      var shuffled := Shuffle(fragmentsFlattened, shuffleDraw);
      PermutationKeepsFragments(shuffled, fragmentsFlattened);
      RelabelledFacts(shuffled, PuzzleFragments(difficulty));
      fragmentsFlattened := UpdateCurrentPositions(shuffled, PuzzleFragments(difficulty));
      RearrangedFullBuild(fragmentsFlattened, originalTiles, difficulty, assets, cropping, mint);
    }

    /** `validatePuzzleSolution` on the flattened puzzle; nothing changes. */
    method ValidatePuzzle() returns (isCorrect: bool)
      ensures isCorrect <==> Solved(fragmentsFlattened)
    {
      isCorrect := ValidatePuzzleSolution(fragmentsFlattened);
    }

    /**
     * `collectionView(_:performDropWith:)`: without a destination, or without
     * a dragged item that comes from this view (`source`), nothing happens;
     * otherwise the fragment at the source index is removed, inserted at the
     * destination index, and every cell is renumbered.
     */
    method PerformDrop(destination: Option<nat>, source: Option<nat>)
      requires Valid()
      requires destination.Some? && source.Some? ==>
                 source.value < |fragmentsFlattened| && destination.value < |fragmentsFlattened|
      modifies this
      ensures Valid()
      ensures destination.None? || source.None? ==> fragmentsFlattened == old(fragmentsFlattened)
      ensures destination.Some? && source.Some? ==>
                fragmentsFlattened == Relabelled(Moved(old(fragmentsFlattened), source.value, destination.value),
                                                 PuzzleFragments(difficulty))
      ensures createdFragments == old(createdFragments) && puzzleFragments == old(puzzleFragments)
    {
      if destination.None? || source.None? {
        return;
      }
      var sourceItem := source.value;
      var destinationItem := destination.value;
      ghost var before := fragmentsFlattened;
      var movedFragment := fragmentsFlattened[sourceItem];
      fragmentsFlattened := Removed(fragmentsFlattened, sourceItem);
      fragmentsFlattened := Inserted(fragmentsFlattened, destinationItem, movedFragment);
      assert fragmentsFlattened == Moved(before, sourceItem, destinationItem);
      DropKeepsFragments(before, createdFragments, sourceItem, destinationItem, PuzzleFragments(difficulty));
      fragmentsFlattened := UpdateCurrentPositions(fragmentsFlattened, PuzzleFragments(difficulty));
    }

    /**
     * `proceedToNextStrata`: a fresh memorisation screen of the same mode
     * whose level is one above this one; it replaces this screen above the
     * home screen.
     */
    method ProceedToNextStrata() returns (memorizationPortal: MnemonicChamber)
      ensures fresh(memorizationPortal)
      ensures memorizationPortal.difficulty == difficulty
      ensures memorizationPortal.currentStrata == currentStrata + 1
      ensures memorizationPortal.originalTiles == [] && memorizationPortal.puzzleFragments == []
      ensures memorizationPortal.isMemorizationPhase && !memorizationPortal.countdownActive
      ensures currentStrata >= 0 ==> memorizationPortal.Valid()
    {
      var nextStrata := currentStrata + 1;
      memorizationPortal := new MnemonicChamber(difficulty);
      memorizationPortal.currentStrata := nextStrata;
    }

    /**
     * `saveRecordAndReturnHome` at time `now`: a record is archived only when
     * the level is beyond the first.
     */
    method SaveRecordAndReturnHome(vault: PersistenceVault, now: Timestamp)
      modifies vault
      ensures currentStrata > 1 ==>
                KeepsBest(vault.RetrieveChronicles(difficulty),
                          old(vault.RetrieveChronicles(difficulty)) + [Record(DifficultyRawValue(difficulty), currentStrata, now)],
                          Capacity)
      ensures currentStrata <= 1 ==> vault.defaults == old(vault.defaults)
      ensures forall other :: other != difficulty ==> vault.RetrieveChronicles(other) == old(vault.RetrieveChronicles(other))
    {
      if currentStrata > 1 {
        vault.ArchiveAccomplishment(difficulty, currentStrata, now);
      }
    }
  }
}
