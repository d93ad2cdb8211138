/**
 * The swap-to-solve game screen (MnemonicChamber.swift): a level first shows
 * unique random tiles for a few seconds, then cuts them into fragments,
 * shuffles them, and lets the player swap two fragments at a time until the
 * verification button finds every fragment in its own cell.
 */
module Chamber {
  import opened Wrappers
  import opened Vestige
  import opened Fragmentation
  import opened Sequences
  import opened Arrangement
  import opened Persistence

  /** Every draw is one the generator's randomness can produce. */
  predicate ValidDraws(draws: seq<Draw>)
  {
    forall i :: 0 <= i < |draws| ==> ValidDraw(draws[i])
  }

  /** The identifiers of a list of tiles. */
  function Identifiers(tiles: seq<Tile>): set<string>
  {
    set i | 0 <= i < |tiles| :: tiles[i].identifier
  }

  /** The identifiers a sequence of draws produces. */
  function DrawnIdentifiers(draws: seq<Draw>): set<string>
    requires ValidDraws(draws)
  {
    if |draws| == 0 then {}
    else DrawnIdentifiers(draws[..|draws| - 1]) + {GenerateArbitraryTile(draws[|draws| - 1]).identifier}
  }

  /** No two tiles share an identifier. */
  predicate DistinctIdentifiers(tiles: seq<Tile>)
  {
    forall i, j :: 0 <= i < j < |tiles| ==> tiles[i].identifier != tiles[j].identifier
  }

  /**
   * The tiles the unique-tile loop has collected once it has consumed
   * `draws`: a generated tile is kept when its identifier is new.
   */
  function Kept(draws: seq<Draw>): seq<Tile>
    requires ValidDraws(draws)
  {
    if |draws| == 0 then []
    else
      var previous := Kept(draws[..|draws| - 1]);
      var tile := GenerateArbitraryTile(draws[|draws| - 1]);
      if tile.identifier in Identifiers(previous) then previous else previous + [tile]
  }

  lemma IdentifiersAppend(tiles: seq<Tile>, tile: Tile)
    ensures Identifiers(tiles + [tile]) == Identifiers(tiles) + {tile.identifier}
  {
    var longer := tiles + [tile];
    assert longer[|tiles|] == tile;
    forall s | s in Identifiers(tiles)
      ensures s in Identifiers(longer)
    {
      var i :| 0 <= i < |tiles| && tiles[i].identifier == s;
      assert longer[i] == tiles[i];
    }
  }

  /** A list of tiles with pairwise different identifiers has as many identifiers as tiles. */
  lemma {:induction false} DistinctIdentifiersCount(tiles: seq<Tile>)
    requires DistinctIdentifiers(tiles)
    ensures |Identifiers(tiles)| == |tiles|
  {
    if |tiles| > 0 {
      var init := tiles[..|tiles| - 1];
      var last := tiles[|tiles| - 1];
      assert tiles == init + [last];
      DistinctIdentifiersCount(init);
      IdentifiersAppend(init, last);
      assert last.identifier !in Identifiers(init) by {
        forall i | 0 <= i < |init|
          ensures init[i].identifier != last.identifier
        {
          assert init[i] == tiles[i];
        }
      }
    }
  }

  /** One step of Kept: the last draw's tile is appended exactly when its identifier is new. */
  lemma KeptStep(draws: seq<Draw>)
    requires ValidDraws(draws) && |draws| > 0
    ensures var previous := Kept(draws[..|draws| - 1]);
            var tile := GenerateArbitraryTile(draws[|draws| - 1]);
            Kept(draws) == if tile.identifier in Identifiers(previous) then previous else previous + [tile]
  {
  }

  /**
   * The loop keeps tiles with pairwise different identifiers, one for every
   * identifier drawn so far.
   */
  lemma {:induction false} KeptFacts(draws: seq<Draw>)
    requires ValidDraws(draws)
    ensures DistinctIdentifiers(Kept(draws))
    ensures Identifiers(Kept(draws)) == DrawnIdentifiers(draws)
    ensures |Kept(draws)| == |DrawnIdentifiers(draws)|
  {
    if |draws| > 0 {
      var init := draws[..|draws| - 1];
      var previous := Kept(init);
      var tile := GenerateArbitraryTile(draws[|draws| - 1]);
      KeptFacts(init);
      KeptStep(draws);
      if tile.identifier !in Identifiers(previous) {
        KeptAppendDistinct(previous, tile);
      }
    }
  }

  /** Appending a tile with a new identifier keeps the identifiers distinct and adds one. */
  lemma KeptAppendDistinct(previous: seq<Tile>, tile: Tile)
    requires DistinctIdentifiers(previous) && tile.identifier !in Identifiers(previous)
    ensures DistinctIdentifiers(previous + [tile])
    ensures Identifiers(previous + [tile]) == Identifiers(previous) + {tile.identifier}
    ensures |Identifiers(previous + [tile])| == |Identifiers(previous)| + 1
  {
    IdentifiersAppend(previous, tile);
    var kept := previous + [tile];
    forall i, j | 0 <= i < j < |kept|
      ensures kept[i].identifier != kept[j].identifier
    {
      assert kept[i] == previous[i];
      if j < |previous| {
        assert kept[j] == previous[j];
      }
    }
  }

  /** Each kept tile is the tile of one of the draws. */
  lemma {:induction false} KeptDrawn(draws: seq<Draw>)
    requires ValidDraws(draws)
    ensures forall i :: 0 <= i < |Kept(draws)| ==>
              exists j :: 0 <= j < |draws| && Kept(draws)[i] == GenerateArbitraryTile(draws[j])
  {
    if |draws| > 0 {
      var init := draws[..|draws| - 1];
      var previous := Kept(init);
      KeptDrawn(init);
      KeptStep(draws);
      forall i | 0 <= i < |Kept(draws)|
        ensures exists j :: 0 <= j < |draws| && Kept(draws)[i] == GenerateArbitraryTile(draws[j])
      {
        if i < |previous| {
          var j :| 0 <= j < |init| && previous[i] == GenerateArbitraryTile(init[j]);
          assert init[j] == draws[j];
          assert Kept(draws)[i] == previous[i];
        } else {
          var j := |draws| - 1;
          assert Kept(draws)[i] == GenerateArbitraryTile(draws[j]);
        }
      }
    } else {
      assert Kept(draws) == [];
    }
  }

  /** Each draw adds at most one tile. */
  lemma {:induction false} KeptGrowth(draws: seq<Draw>, n: nat)
    requires ValidDraws(draws) && n <= |draws|
    ensures |Kept(draws)| <= |Kept(draws[..n])| + (|draws| - n)
    decreases |draws| - n
  {
    if n == |draws| {
      assert draws[..n] == draws;
    } else {
      KeptGrowth(draws, n + 1);
      assert draws[..n + 1][..n] == draws[..n];
    }
  }

  /** Consuming the next draw, as one loop iteration does. */
  lemma KeptPrefixStep(draws: seq<Draw>, n: nat)
    requires ValidDraws(draws) && n < |draws|
    ensures ValidDraws(draws[..n]) && ValidDraws(draws[..n + 1])
    ensures var tile := GenerateArbitraryTile(draws[n]);
            Kept(draws[..n + 1]) == if tile.identifier in Identifiers(Kept(draws[..n])) then Kept(draws[..n])
                                    else Kept(draws[..n]) + [tile]
  {
    assert draws[..n + 1][..n] == draws[..n];
    KeptStep(draws[..n + 1]);
  }

  /** The tiles kept from any prefix of valid draws have distinct identifiers. */
  lemma KeptPrefixDistinct(draws: seq<Draw>, n: nat)
    requires ValidDraws(draws) && n <= |draws|
    ensures DistinctIdentifiers(Kept(draws[..n]))
  {
    KeptFacts(draws[..n]);
  }

  /** While fewer tiles are kept than the draws hold identifiers, some draw is left. */
  lemma DrawsRemain(draws: seq<Draw>, n: nat)
    requires ValidDraws(draws) && n <= |draws|
    requires |Kept(draws[..n])| < |DrawnIdentifiers(draws)|
    ensures n < |draws|
  {
    KeptGrowth(draws, n);
    KeptFacts(draws);
  }

  /**
   * One iteration of the drawing loop while the grid is short of tiles: a
   * draw is left, and the identifier set kept beside the tiles tells whether
   * the drawn tile is appended.
   */
  lemma KeptAdvance(draws: seq<Draw>, n: nat, used: set<string>)
    requires ValidDraws(draws) && n <= |draws|
    requires |Kept(draws[..n])| < |DrawnIdentifiers(draws)|
    requires used == Identifiers(Kept(draws[..n]))
    ensures n < |draws| && ValidDraw(draws[n])
    ensures var tiles, tile := Kept(draws[..n]), GenerateArbitraryTile(draws[n]);
            if tile.identifier in used then Kept(draws[..n + 1]) == tiles
            else Kept(draws[..n + 1]) == tiles + [tile] && Identifiers(tiles + [tile]) == used + {tile.identifier}
  {
    DrawsRemain(draws, n);
    KeptPrefixStep(draws, n);
    IdentifiersAppend(Kept(draws[..n]), GenerateArbitraryTile(draws[n]));
  }

  /**
   * The generating loop of `initiateMemorizationPhase`: it draws tiles until
   * `tilesQuantity` of them are kept, skipping any whose identifier is already
   * used. It consumes the first `consumed` draws and stops at the first draw
   * that completes the list.
   */
  method DrawDistinctTiles(draws: seq<Draw>, tilesQuantity: nat) returns (tiles: seq<Tile>, consumed: nat)
    requires ValidDraws(draws) && |DrawnIdentifiers(draws)| >= tilesQuantity
    ensures consumed <= |draws| && tiles == Kept(draws[..consumed])
    ensures |tiles| == tilesQuantity && DistinctIdentifiers(tiles)
    ensures consumed == 0 || |Kept(draws[..consumed - 1])| < tilesQuantity
  {
    tiles := [];
    var usedIdentifiers: set<string> := {};
    consumed := 0;
    while |tiles| < tilesQuantity
      invariant consumed <= |draws|
      invariant tiles == Kept(draws[..consumed])
      invariant usedIdentifiers == Identifiers(tiles)
      invariant |tiles| <= tilesQuantity
      invariant consumed == 0 || |Kept(draws[..consumed - 1])| < tilesQuantity
      decreases |draws| - consumed
    {
      KeptAdvance(draws, consumed, usedIdentifiers);
      var tile := GenerateArbitraryTile(draws[consumed]);
      if tile.identifier !in usedIdentifiers {
        usedIdentifiers := usedIdentifiers + {tile.identifier};
        tiles := tiles + [tile];
      }
      consumed := consumed + 1;
    }
    KeptPrefixDistinct(draws, consumed);
  }

  /** `MnemonicChamber`, without its views. */
  class MnemonicChamber {
    const difficulty: Difficulty
    var currentStrata: int
    var originalTiles: seq<Tile>
    var puzzleFragments: seq<Fragment>
    var remainingTime: int
    /** Whether `countdownMechanism` is scheduled and not yet invalidated. */
    var countdownActive: bool
    var isMemorizationPhase: bool
    var selectedFragmentIndex: Option<nat>
    /** The fragments this level's tiles were cut into, before shuffling. */
    ghost var createdFragments: seq<Fragment>

    /**
     * What every entry point keeps: the level is positive, the tiles are a
     * full grid of distinct tiles (or none before the first level starts),
     * the puzzle holds exactly the fragments that were cut, each showing the
     * cell its index determines, nothing is selected or cut while the tiles
     * are shown, and the countdown only runs during memorisation with its
     * time within the mode's interval.
     */
    ghost predicate Valid()
      reads this
    {
      currentStrata >= 1
      && (originalTiles == [] || |originalTiles| == GridDimension(difficulty) * GridDimension(difficulty))
      && DistinctIdentifiers(originalTiles)
      && Positioned(puzzleFragments, PuzzleFragments(difficulty))
      && SameFragments(puzzleFragments, createdFragments)
      && (isMemorizationPhase ==> puzzleFragments == [] && createdFragments == [] && selectedFragmentIndex.None?)
      && (selectedFragmentIndex.Some? ==> selectedFragmentIndex.value < |puzzleFragments|)
      && (countdownActive ==> isMemorizationPhase && 1 <= remainingTime <= MemorizeInterval(difficulty))
    }

    /** `init(difficulty:)`: level 1, nothing generated, memorisation pending. */
    constructor (difficulty: Difficulty)
      ensures Valid()
      ensures this.difficulty == difficulty && currentStrata == 1
      ensures originalTiles == [] && puzzleFragments == [] && createdFragments == []
      ensures remainingTime == 0 && !countdownActive && isMemorizationPhase && selectedFragmentIndex == None
    {
      this.difficulty := difficulty;
      currentStrata := 1;
      originalTiles := [];
      puzzleFragments := [];
      remainingTime := 0;
      countdownActive := false;
      isMemorizationPhase := true;
      selectedFragmentIndex := None;
      createdFragments := [];
    }

    /** A full grid of distinct tiles on show, with the countdown freshly started, keeps the invariant. */
    lemma MemorizationStartValid()
      requires currentStrata >= 1 && selectedFragmentIndex == None
      requires |originalTiles| == GridDimension(difficulty) * GridDimension(difficulty)
      requires DistinctIdentifiers(originalTiles)
      requires isMemorizationPhase && puzzleFragments == [] && createdFragments == []
      requires remainingTime == MemorizeInterval(difficulty) && countdownActive
      ensures Valid()
    {
      assert Positioned(puzzleFragments, PuzzleFragments(difficulty));
      assert SameFragments(puzzleFragments, createdFragments);
    }

    /**
     * `initiateMemorizationPhase` (run by `viewDidLoad` and by the next
     * level): draws tiles until the grid is full of distinct ones, then
     * starts the countdown. The generator's random choices are `draws`, of
     * which the loop consumes the first `consumed`; the draws must hold
     * enough distinct identifiers for the loop to finish.
     */
    method InitiateMemorizationPhase(draws: seq<Draw>) returns (consumed: nat)
      requires currentStrata >= 1 && selectedFragmentIndex == None
      requires ValidDraws(draws)
      requires |DrawnIdentifiers(draws)| >= GridDimension(difficulty) * GridDimension(difficulty)
      modifies this
      ensures Valid()
      ensures consumed <= |draws|
      ensures originalTiles == Kept(draws[..consumed])
      ensures |originalTiles| == GridDimension(difficulty) * GridDimension(difficulty)
      ensures DistinctIdentifiers(originalTiles)
      ensures consumed == 0 || |Kept(draws[..consumed - 1])| < GridDimension(difficulty) * GridDimension(difficulty)
      ensures isMemorizationPhase && puzzleFragments == [] && createdFragments == []
      ensures remainingTime == MemorizeInterval(difficulty) && countdownActive
      ensures currentStrata == old(currentStrata) && selectedFragmentIndex == None
    {
      isMemorizationPhase := true;
      originalTiles := [];
      puzzleFragments := [];
      createdFragments := [];
      originalTiles, consumed := DrawDistinctTiles(draws, GridDimension(difficulty) * GridDimension(difficulty));
      remainingTime := MemorizeInterval(difficulty);
      countdownActive := true;
      MemorizationStartValid();
    }

    /**
     * The body of the repeating one-second timer: one second less, and at
     * zero the timer is invalidated and the puzzle phase begins.
     */
    method CountdownTick(assets: Assets, cropping: Cropping, mint: Minting, shuffleDraw: nat -> nat)
      requires Valid() && countdownActive
      modifies this
      ensures Valid()
      ensures remainingTime == old(remainingTime) - 1 && remainingTime >= 0
      ensures remainingTime > 0 ==> countdownActive && isMemorizationPhase && puzzleFragments == []
      ensures remainingTime == 0 ==> !countdownActive && !isMemorizationPhase
      ensures remainingTime == 0 ==> createdFragments == BuiltFragments(originalTiles, difficulty, assets, cropping, mint, |originalTiles|)
      ensures originalTiles == old(originalTiles) && currentStrata == old(currentStrata)
      ensures selectedFragmentIndex == None
    {
      remainingTime := remainingTime - 1;
      if remainingTime <= 0 {
        countdownActive := false;
        TransitionToPuzzlePhase(assets, cropping, mint, shuffleDraw);
      }
    }

    /**
     * `transitionToPuzzlePhase`: cuts the tiles into fragments, shuffles them
     * (the shuffle's randomness is `shuffleDraw`) and gives each the cell its
     * new index determines. The puzzle then holds exactly the cut fragments;
     * when every tile's image loads they cover the puzzle grid once each and
     * some arrangement of them passes validation.
     */
    method TransitionToPuzzlePhase(assets: Assets, cropping: Cropping, mint: Minting, shuffleDraw: nat -> nat)
      requires Valid() && isMemorizationPhase && !countdownActive
      modifies this
      ensures Valid() && !isMemorizationPhase
      ensures createdFragments == BuiltFragments(originalTiles, difficulty, assets, cropping, mint, |originalTiles|)
      ensures SameFragments(puzzleFragments, createdFragments)
      ensures Positioned(puzzleFragments, PuzzleFragments(difficulty))
      ensures |originalTiles| == GridDimension(difficulty) * GridDimension(difficulty)
              && (forall t :: 0 <= t < |originalTiles| ==> TileLoads(originalTiles[t], assets, cropping))
              ==> |puzzleFragments| == PuzzleFragments(difficulty) * PuzzleFragments(difficulty)
                  && CoversGridOnce(puzzleFragments, PuzzleFragments(difficulty))
                  && exists s :: SameFragments(s, puzzleFragments)
                                 && Positioned(s, PuzzleFragments(difficulty)) && Solved(s)
      ensures originalTiles == old(originalTiles) && currentStrata == old(currentStrata)
      ensures remainingTime == old(remainingTime) && !countdownActive && selectedFragmentIndex == None
    {
      isMemorizationPhase := false;
      puzzleFragments := CreateFragmentsFromTiles(originalTiles, difficulty, assets, cropping, mint);
      createdFragments := puzzleFragments;
      var shuffled := Shuffle(puzzleFragments, shuffleDraw);
      PermutationKeepsFragments(shuffled, puzzleFragments);
      puzzleFragments := shuffled;
      UpdatePuzzlePositions();
      RelabelledFacts(shuffled, PuzzleFragments(difficulty));
      RearrangedFullBuild(puzzleFragments, originalTiles, difficulty, assets, cropping, mint);
    }

    /** The position-update loop applied to the puzzle; nothing else changes. */
    method UpdatePuzzlePositions()
      modifies this
      ensures puzzleFragments == Relabelled(old(puzzleFragments), PuzzleFragments(difficulty))
      ensures originalTiles == old(originalTiles) && currentStrata == old(currentStrata)
      ensures remainingTime == old(remainingTime) && countdownActive == old(countdownActive)
      ensures isMemorizationPhase == old(isMemorizationPhase) && selectedFragmentIndex == old(selectedFragmentIndex)
      ensures createdFragments == old(createdFragments)
    {
      puzzleFragments := UpdateCurrentPositions(puzzleFragments, PuzzleFragments(difficulty));
    }

    /** `validatePuzzleSolution` on the puzzle; nothing changes. */
    method ValidatePuzzle() returns (isCorrect: bool)
      ensures isCorrect <==> Solved(puzzleFragments)
    {
      isCorrect := ValidatePuzzleSolution(puzzleFragments);
    }

    /**
     * `collectionView(_:didSelectItemAt:)` for a tap on `item`; `onPuzzleView`
     * tells the puzzle view from the tiles view. Taps on the tiles view or
     * during memorisation are ignored. The first tap selects; the second
     * swaps the two fragments (if they differ), renumbers the cells and
     * clears the selection.
     */
    method SelectItem(onPuzzleView: bool, item: nat)
      requires Valid()
      requires onPuzzleView && !isMemorizationPhase ==> item < |puzzleFragments|
      modifies this
      ensures Valid()
      ensures !onPuzzleView || old(isMemorizationPhase) ==>
                puzzleFragments == old(puzzleFragments) && selectedFragmentIndex == old(selectedFragmentIndex)
      ensures onPuzzleView && !old(isMemorizationPhase) && old(selectedFragmentIndex).None? ==>
                puzzleFragments == old(puzzleFragments) && selectedFragmentIndex == Some(item)
      ensures onPuzzleView && !old(isMemorizationPhase) && old(selectedFragmentIndex).Some? ==>
                selectedFragmentIndex == None
                && puzzleFragments == if old(selectedFragmentIndex).value == item then old(puzzleFragments)
                                      else Relabelled(Swapped(old(puzzleFragments), old(selectedFragmentIndex).value, item),
                                                      PuzzleFragments(difficulty))
      ensures originalTiles == old(originalTiles) && currentStrata == old(currentStrata)
      ensures remainingTime == old(remainingTime) && countdownActive == old(countdownActive)
      ensures isMemorizationPhase == old(isMemorizationPhase) && createdFragments == old(createdFragments)
    {
      if !onPuzzleView || isMemorizationPhase {
        return;
      }
      if selectedFragmentIndex.Some? {
        var firstIndex := selectedFragmentIndex.value;
        if firstIndex != item {
          ghost var before := puzzleFragments;
          var tempFragment := puzzleFragments[firstIndex];
          puzzleFragments := puzzleFragments[firstIndex := puzzleFragments[item]];
          puzzleFragments := puzzleFragments[item := tempFragment];
          assert puzzleFragments == Swapped(before, firstIndex, item);
          MapSwapped(before, firstIndex, item, PieceOf);
          SwappedPermutes(Pieces(before), firstIndex, item);
          RelabelledFacts(puzzleFragments, PuzzleFragments(difficulty));
          UpdatePuzzlePositions();
        }
        selectedFragmentIndex := None;
      } else {
        selectedFragmentIndex := Some(item);
      }
    }

    /** `viewWillDisappear`: the countdown is invalidated. */
    method ViewWillDisappear()
      requires Valid()
      modifies this
      ensures Valid() && !countdownActive
      ensures originalTiles == old(originalTiles) && puzzleFragments == old(puzzleFragments)
      ensures currentStrata == old(currentStrata) && remainingTime == old(remainingTime)
      ensures isMemorizationPhase == old(isMemorizationPhase) && selectedFragmentIndex == old(selectedFragmentIndex)
      ensures createdFragments == old(createdFragments)
    {
      countdownActive := false;
    }

    /** `proceedToNextStrata`: one level up, selection cleared, a new memorisation phase. */
    method ProceedToNextStrata(draws: seq<Draw>) returns (consumed: nat)
      requires Valid()
      requires ValidDraws(draws)
      requires |DrawnIdentifiers(draws)| >= GridDimension(difficulty) * GridDimension(difficulty)
      modifies this
      ensures Valid()
      ensures currentStrata == old(currentStrata) + 1
      ensures consumed <= |draws| && originalTiles == Kept(draws[..consumed])
      ensures |originalTiles| == GridDimension(difficulty) * GridDimension(difficulty)
      ensures isMemorizationPhase && puzzleFragments == [] && selectedFragmentIndex == None
      ensures remainingTime == MemorizeInterval(difficulty) && countdownActive
    {
      currentStrata := currentStrata + 1;
      selectedFragmentIndex := None;
      consumed := InitiateMemorizationPhase(draws);
    }

    /**
     * `saveRecordAndReturnHome` at time `now`: a record is archived only once
     * a level beyond the first has been reached; the chamber itself is
     * unchanged.
     */
    method SaveRecordAndReturnHome(vault: PersistenceVault, now: Timestamp)
      modifies vault
      ensures currentStrata > 1 ==>
                KeepsBest(vault.RetrieveChronicles(difficulty),
                          old(vault.RetrieveChronicles(difficulty)) + [Record(DifficultyRawValue(difficulty), currentStrata, now)],
                          Capacity)
      ensures currentStrata <= 1 ==> vault.defaults == old(vault.defaults)
      ensures forall other :: other != difficulty ==> vault.RetrieveChronicles(other) == old(vault.RetrieveChronicles(other))
    {
      if currentStrata > 1 {
        vault.ArchiveAccomplishment(difficulty, currentStrata, now);
      }
    }
  }
}
