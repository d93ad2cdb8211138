/**
 * The fragment-list bookkeeping both puzzle screens share: cutting the
 * tiles into fragments with their correct cells, recomputing current cells
 * from list indices, and what it means for the list to be solved.
 */
module Arrangement {
  import opened Wrappers
  import opened Vestige
  import opened Fragmentation
  import opened Sequences

  /** The app bundle's image catalogue: what `UIImage(named:)` returns for each name. */
  type Assets = string -> Option<Picture>

  /** `UIImage(named: name)`. */
  function Named(assets: Assets, name: string): Option<Picture>
  {
    assets(name)
  }

  /** `UUID().uuidString` for the fragment cut from tile t at local cell (r, c). */
  type Minting = (nat, nat, nat) -> string

  /** A grid cell as (row, column). */
  type Cell = (int, int)

  function CorrectCellOf(f: Fragment): Cell
  {
    (f.correctRowPosition, f.correctColumnPosition)
  }

  function CurrentCellOf(f: Fragment): Cell
  {
    (f.currentRowPosition, f.currentColumnPosition)
  }

  predicate InGrid(x: Cell, p: nat)
  {
    0 <= x.0 < p && 0 <= x.1 < p
  }

  /**
   * The fragment cut from tile t of a grid g tiles wide at local cell (r, c):
   * the tile sits at (t / g, t % g), the fragment at
   * (tileRow * 2 + r, tileColumn * 2 + c), and it starts out in place.
   */
  function NewFragment(image: Picture, t: nat, g: nat, r: nat, c: nat, mint: Minting): Fragment
    requires g > 0
  {
    var row := (t / g) * FragmentsPerTile + r;
    var column := (t % g) * FragmentsPerTile + c;
    Fragment(image, row, column, row, column, mint(t, r, c))
  }

  /** Fragments of the first k images of row r of tile t's matrix. */
  function RowFragments(rowImages: seq<Picture>, t: nat, g: nat, r: nat, k: nat, mint: Minting): seq<Fragment>
    requires g > 0 && k <= |rowImages|
  {
    if k == 0 then []
    else RowFragments(rowImages, t, g, r, k - 1, mint) + [NewFragment(rowImages[k - 1], t, g, r, k - 1, mint)]
  }

  /** Fragments of the first k rows of tile t's matrix, row by row. */
  function MatrixFragments(matrix: seq<seq<Picture>>, t: nat, g: nat, k: nat, mint: Minting): seq<Fragment>
    requires g > 0 && k <= |matrix|
  {
    if k == 0 then []
    else MatrixFragments(matrix, t, g, k - 1, mint) + RowFragments(matrix[k - 1], t, g, k - 1, |matrix[k - 1]|, mint)
  }

  /** A tile's 2 x 2 matrix; empty when its image is not in the catalogue. */
  function TileMatrix(tile: Tile, assets: Assets, cropping: Cropping): seq<seq<Picture>>
  {
    match Named(assets, ImageDesignation(tile))
    case None => []
    case Some(image) => Dissection(image, FragmentsPerTile, cropping)
  }

  function TileFragments(tiles: seq<Tile>, t: nat, g: nat, assets: Assets, cropping: Cropping, mint: Minting): seq<Fragment>
    requires g > 0 && t < |tiles|
  {
    var m := TileMatrix(tiles[t], assets, cropping);
    MatrixFragments(m, t, g, |m|, mint)
  }

  /** The list `createFragmentsFromTiles` has built after the first k tiles. */
  function BuiltFragments(tiles: seq<Tile>, d: Difficulty, assets: Assets, cropping: Cropping, mint: Minting, k: nat): seq<Fragment>
    requires k <= |tiles|
  {
    if k == 0 then []
    else BuiltFragments(tiles, d, assets, cropping, mint, k - 1) + TileFragments(tiles, k - 1, GridDimension(d), assets, cropping, mint)
  }

  /**
   * `createFragmentsFromTiles` (and the building half of
   * `generatePuzzleFragments`): a tile whose image is missing is skipped, and
   * every other tile contributes its matrix's fragments row by row, each
   * numbered by its index within its row.
   */
  method CreateFragmentsFromTiles(tiles: seq<Tile>, d: Difficulty, assets: Assets, cropping: Cropping, mint: Minting)
    returns (fragments: seq<Fragment>)
    ensures fragments == BuiltFragments(tiles, d, assets, cropping, mint, |tiles|)
  {
    fragments := [];
    var tilesPerRow := GridDimension(d);
    for tileIndex := 0 to |tiles|
      invariant fragments == BuiltFragments(tiles, d, assets, cropping, mint, tileIndex)
    {
      var tileImage := Named(assets, ImageDesignation(tiles[tileIndex]));
      if tileImage.None? {
        assert TileFragments(tiles, tileIndex, tilesPerRow, assets, cropping, mint) == [];
        continue;
      }
      var tileFragmentMatrix := DissectImageIntoFragments(tileImage.value, FragmentsPerTile, cropping);
      assert tileFragmentMatrix == TileMatrix(tiles[tileIndex], assets, cropping);
      fragments := AppendTileFragments(fragments, tileFragmentMatrix, tileIndex, tilesPerRow, mint);
    }
  }

  /** The two nested loops over one tile's matrix. */
  method AppendTileFragments(fragments: seq<Fragment>, tileFragmentMatrix: seq<seq<Picture>>, tileIndex: nat, tilesPerRow: nat, mint: Minting)
    returns (appended: seq<Fragment>)
    requires tilesPerRow > 0
    ensures appended == fragments + MatrixFragments(tileFragmentMatrix, tileIndex, tilesPerRow, |tileFragmentMatrix|, mint)
  {
    appended := fragments;
    var tileRow := tileIndex / tilesPerRow;
    var tileColumn := tileIndex % tilesPerRow;
    for fragmentRow := 0 to |tileFragmentMatrix|
      invariant appended == fragments + MatrixFragments(tileFragmentMatrix, tileIndex, tilesPerRow, fragmentRow, mint)
    {
      var rowFragments := tileFragmentMatrix[fragmentRow];
      ghost var rowStart := appended;
      for fragmentColumn := 0 to |rowFragments|
        invariant appended == rowStart + RowFragments(rowFragments, tileIndex, tilesPerRow, fragmentRow, fragmentColumn, mint)
      {
        var globalRow := tileRow * FragmentsPerTile + fragmentRow;
        var globalColumn := tileColumn * FragmentsPerTile + fragmentColumn;
        var fragment := Fragment(rowFragments[fragmentColumn], globalRow, globalColumn, globalRow, globalColumn,
                                 mint(tileIndex, fragmentRow, fragmentColumn));
        appended := appended + [fragment];
      }
    }
  }

  /** The tile's image is in the catalogue, has a bitmap, and all four crops succeed. */
  predicate TileLoads(tile: Tile, assets: Assets, cropping: Cropping)
  {
    assets(ImageDesignation(tile)).Some?
    && assets(ImageDesignation(tile)).value.backing.Some?
    && AllCrop(assets(ImageDesignation(tile)).value.backing.value, FragmentsPerTile, cropping)
  }

  /** The crop of local cell (r, c) of a tile that loads. */
  function TileCrop(tile: Tile, assets: Assets, cropping: Cropping, r: nat, c: nat): Picture
    requires TileLoads(tile, assets, cropping) && r < FragmentsPerTile && c < FragmentsPerTile
  {
    cropping(assets(ImageDesignation(tile)).value.backing.value, Lattice(r, c, FragmentsPerTile)).value
  }

  lemma {:induction false} RowFragmentsAt(rowImages: seq<Picture>, t: nat, g: nat, r: nat, k: nat, mint: Minting)
    requires g > 0 && k <= |rowImages|
    ensures |RowFragments(rowImages, t, g, r, k, mint)| == k
    ensures forall c :: 0 <= c < k ==> RowFragments(rowImages, t, g, r, k, mint)[c] == NewFragment(rowImages[c], t, g, r, c, mint)
  {
    if k > 0 {
      RowFragmentsAt(rowImages, t, g, r, k - 1, mint);
    }
  }

  lemma {:induction false} MatrixFragmentsInPlace(matrix: seq<seq<Picture>>, t: nat, g: nat, k: nat, mint: Minting)
    requires g > 0 && k <= |matrix|
    ensures |MatrixFragments(matrix, t, g, k, mint)| == CellsBefore(matrix, k)
    ensures forall i :: 0 <= i < |MatrixFragments(matrix, t, g, k, mint)| ==> IsCorrectlyPositioned(MatrixFragments(matrix, t, g, k, mint)[i])
  {
    if k > 0 {
      MatrixFragmentsInPlace(matrix, t, g, k - 1, mint);
      RowFragmentsAt(matrix[k - 1], t, g, k - 1, |matrix[k - 1]|, mint);
    }
  }

  /**
   * A tile contributes at most four fragments, exactly four when it loads,
   * and none when its image is missing; all of them start out in place.
   */
  lemma TileFragmentsCount(tiles: seq<Tile>, t: nat, g: nat, assets: Assets, cropping: Cropping, mint: Minting)
    requires g > 0 && t < |tiles|
    ensures |TileFragments(tiles, t, g, assets, cropping, mint)| <= 4
    ensures |TileFragments(tiles, t, g, assets, cropping, mint)| == 4 <==> TileLoads(tiles[t], assets, cropping)
    ensures assets(ImageDesignation(tiles[t])).None? ==> TileFragments(tiles, t, g, assets, cropping, mint) == []
    ensures forall i :: 0 <= i < |TileFragments(tiles, t, g, assets, cropping, mint)| ==>
              IsCorrectlyPositioned(TileFragments(tiles, t, g, assets, cropping, mint)[i])
  {
    var m := TileMatrix(tiles[t], assets, cropping);
    MatrixFragmentsInPlace(m, t, g, |m|, mint);
    var name := ImageDesignation(tiles[t]);
    if assets(name).Some? {
      var image := assets(name).value;
      DissectionShape(image, FragmentsPerTile, cropping);
      if image.backing.Some? {
        var b := image.backing.value;
        assert m == Dissection(image, FragmentsPerTile, cropping);
        assert CellsBefore(m, 1) == |m[0]|;
        assert CellsBefore(m, 2) == |m[0]| + |m[1]|;
        assert AllCrop(b, 2, cropping) <==> RowCrops(b, 0, 2, cropping) && RowCrops(b, 1, 2, cropping);
      }
    }
  }

  /**
   * After k tiles the list holds at most 4k fragments, exactly 4k when every
   * one of those tiles loads, and every fragment starts out in place.
   */
  lemma {:induction false} BuiltFragmentsCount(tiles: seq<Tile>, d: Difficulty, assets: Assets, cropping: Cropping, mint: Minting, k: nat)
    requires k <= |tiles|
    ensures |BuiltFragments(tiles, d, assets, cropping, mint, k)| <= 4 * k
    ensures |BuiltFragments(tiles, d, assets, cropping, mint, k)| == 4 * k <==>
            forall t :: 0 <= t < k ==> TileLoads(tiles[t], assets, cropping)
    ensures forall i :: 0 <= i < |BuiltFragments(tiles, d, assets, cropping, mint, k)| ==>
              IsCorrectlyPositioned(BuiltFragments(tiles, d, assets, cropping, mint, k)[i])
  {
    if k > 0 {
      var prefix := BuiltFragments(tiles, d, assets, cropping, mint, k - 1);
      var block := TileFragments(tiles, k - 1, GridDimension(d), assets, cropping, mint);
      assert BuiltFragments(tiles, d, assets, cropping, mint, k) == prefix + block;
      BuiltFragmentsCount(tiles, d, assets, cropping, mint, k - 1);
      TileFragmentsCount(tiles, k - 1, GridDimension(d), assets, cropping, mint);
      assert (forall t :: 0 <= t < k ==> TileLoads(tiles[t], assets, cropping)) <==>
             (forall t :: 0 <= t < k - 1 ==> TileLoads(tiles[t], assets, cropping)) && TileLoads(tiles[k - 1], assets, cropping);
      CountStep(prefix, block, k);
    }
  }

  /** Appending at most four in-place fragments to at most 4(k - 1) in-place fragments. */
  lemma CountStep(prefix: seq<Fragment>, block: seq<Fragment>, k: nat)
    requires k > 0 && |prefix| <= 4 * (k - 1) && |block| <= 4
    requires forall i :: 0 <= i < |prefix| ==> IsCorrectlyPositioned(prefix[i])
    requires forall i :: 0 <= i < |block| ==> IsCorrectlyPositioned(block[i])
    ensures |prefix + block| <= 4 * k
    ensures |prefix + block| == 4 * k <==> |prefix| == 4 * (k - 1) && |block| == 4
    ensures forall i :: 0 <= i < |prefix + block| ==> IsCorrectlyPositioned((prefix + block)[i])
  {
  }

  /**
   * When no tile's image is in the catalogue the list stays empty, so the
   * puzzle has no fragments and validation succeeds at once.
   */
  lemma NothingLoadsNothingBuilt(tiles: seq<Tile>, d: Difficulty, assets: Assets, cropping: Cropping, mint: Minting)
    requires forall t :: 0 <= t < |tiles| ==> assets(ImageDesignation(tiles[t])).None?
    ensures BuiltFragments(tiles, d, assets, cropping, mint, |tiles|) == []
    ensures Solved(BuiltFragments(tiles, d, assets, cropping, mint, |tiles|))
  {
    MissingTilesSkipped(tiles, d, assets, cropping, mint, |tiles|);
  }

  /** The first k tiles all miss their images, so nothing is built from them. */
  lemma {:induction false} MissingTilesSkipped(tiles: seq<Tile>, d: Difficulty, assets: Assets, cropping: Cropping, mint: Minting, k: nat)
    requires k <= |tiles|
    requires forall t :: 0 <= t < k ==> assets(ImageDesignation(tiles[t])).None?
    ensures BuiltFragments(tiles, d, assets, cropping, mint, k) == []
  {
    if k > 0 {
      MissingTilesSkipped(tiles, d, assets, cropping, mint, k - 1);
      MissingTileNoFragments(tiles, k - 1, GridDimension(d), assets, cropping, mint);
    }
  }

  /** A tile whose image is missing contributes no fragments. */
  lemma MissingTileNoFragments(tiles: seq<Tile>, t: nat, g: nat, assets: Assets, cropping: Cropping, mint: Minting)
    requires g > 0 && t < |tiles| && assets(ImageDesignation(tiles[t])).None?
    ensures TileFragments(tiles, t, g, assets, cropping, mint) == []
  {
    assert TileMatrix(tiles[t], assets, cropping) == [];
  }

  /** A tile that loads yields the four crops of its 2 x 2 lattice in row-major order. */
  lemma FullTileFragments(tiles: seq<Tile>, t: nat, g: nat, assets: Assets, cropping: Cropping, mint: Minting)
    requires g > 0 && t < |tiles| && TileLoads(tiles[t], assets, cropping)
    ensures TileFragments(tiles, t, g, assets, cropping, mint) ==
            [NewFragment(TileCrop(tiles[t], assets, cropping, 0, 0), t, g, 0, 0, mint),
             NewFragment(TileCrop(tiles[t], assets, cropping, 0, 1), t, g, 0, 1, mint),
             NewFragment(TileCrop(tiles[t], assets, cropping, 1, 0), t, g, 1, 0, mint),
             NewFragment(TileCrop(tiles[t], assets, cropping, 1, 1), t, g, 1, 1, mint)]
  {
    var image := assets(ImageDesignation(tiles[t])).value;
    DissectionFull(image, FragmentsPerTile, cropping);
    var m := TileMatrix(tiles[t], assets, cropping);
    RowFragmentsAt(m[0], t, g, 0, 2, mint);
    RowFragmentsAt(m[1], t, g, 1, 2, mint);
    assert m == Dissection(image, FragmentsPerTile, cropping);
    assert MatrixFragments(m, t, g, 1, mint) == RowFragments(m[0], t, g, 0, 2, mint);
    assert MatrixFragments(m, t, g, 2, mint) == RowFragments(m[0], t, g, 0, 2, mint) + RowFragments(m[1], t, g, 1, 2, mint);
  }

  lemma FullTileAt(tiles: seq<Tile>, t: nat, g: nat, assets: Assets, cropping: Cropping, mint: Minting, j: nat)
    requires g > 0 && t < |tiles| && TileLoads(tiles[t], assets, cropping) && j < 4
    ensures |TileFragments(tiles, t, g, assets, cropping, mint)| == 4
    ensures TileFragments(tiles, t, g, assets, cropping, mint)[j] ==
            NewFragment(TileCrop(tiles[t], assets, cropping, j / 2, j % 2), t, g, j / 2, j % 2, mint)
  {
    FullTileFragments(tiles, t, g, assets, cropping, mint);
    if j == 0 {
    } else if j == 1 {
    } else if j == 2 {
    } else {
      assert j == 3;
    }
  }

  /** The fragment a fully loaded build puts at index i: local cell ((i % 4) / 2, i % 2) of tile i / 4. */
  function LaidOut(tiles: seq<Tile>, g: nat, assets: Assets, cropping: Cropping, mint: Minting, i: nat): Fragment
    requires g > 0 && i / 4 < |tiles| && TileLoads(tiles[i / 4], assets, cropping)
  {
    NewFragment(TileCrop(tiles[i / 4], assets, cropping, (i % 4) / 2, i % 2), i / 4, g, (i % 4) / 2, i % 2, mint)
  }

  /** When every tile loads, each one contributes its four fragments in turn. */
  lemma {:induction false} FullBuildLayout(tiles: seq<Tile>, d: Difficulty, assets: Assets, cropping: Cropping, mint: Minting, k: nat)
    requires k <= |tiles|
    requires forall t :: 0 <= t < k ==> TileLoads(tiles[t], assets, cropping)
    ensures |BuiltFragments(tiles, d, assets, cropping, mint, k)| == 4 * k
    ensures forall i :: 0 <= i < 4 * k ==>
              BuiltFragments(tiles, d, assets, cropping, mint, k)[i] == LaidOut(tiles, GridDimension(d), assets, cropping, mint, i)
  {
    if k > 0 {
      var g := GridDimension(d);
      var prefix := BuiltFragments(tiles, d, assets, cropping, mint, k - 1);
      var block := TileFragments(tiles, k - 1, g, assets, cropping, mint);
      assert BuiltFragments(tiles, d, assets, cropping, mint, k) == prefix + block;
      FullBuildLayout(tiles, d, assets, cropping, mint, k - 1);
      LaidOutInBlock(tiles, g, assets, cropping, mint, k - 1, 0, 4 * (k - 1));
      forall i | 0 <= i < 4 * k
        ensures (prefix + block)[i] == LaidOut(tiles, g, assets, cropping, mint, i)
      {
        if i < 4 * (k - 1) {
          assert (prefix + block)[i] == prefix[i];
        } else {
          var j := i - 4 * (k - 1);
          assert (prefix + block)[i] == block[j];
          LaidOutInBlock(tiles, g, assets, cropping, mint, k - 1, j, i);
        }
      }
    }
  }

  /** Index 4t + j of a full build is local fragment j of tile t. */
  lemma LaidOutInBlock(tiles: seq<Tile>, g: nat, assets: Assets, cropping: Cropping, mint: Minting, t: nat, j: nat, i: nat)
    requires g > 0 && t < |tiles| && TileLoads(tiles[t], assets, cropping) && j < 4 && i == 4 * t + j
    ensures |TileFragments(tiles, t, g, assets, cropping, mint)| == 4
    ensures LaidOut(tiles, g, assets, cropping, mint, i) == TileFragments(tiles, t, g, assets, cropping, mint)[j]
  {
    DivModFour(i, t, j);
    FullTileAt(tiles, t, g, assets, cropping, mint, j);
  }


  /** The cell a fully loaded build gives to list index i, for a grid g tiles wide. */
  function LaidOutCell(i: nat, g: nat): Cell
    requires g > 0
  {
    ((i / 4 / g) * 2 + (i % 4) / 2, (i / 4 % g) * 2 + i % 2)
  }

  /** The inverse of LaidOutCell: the list index of cell x. */
  function BuildIndex(x: Cell, g: nat): int
  {
    4 * ((x.0 / 2) * g + x.1 / 2) + 2 * (x.0 % 2) + x.1 % 2
  }

  /** Quotient and remainder by 2, 3 and 4 are determined by a == n * q + r with 0 <= r < n. */
  lemma DivModTwo(a: int, q: int, r: int)
    requires 0 <= r < 2 && a == 2 * q + r
    ensures a / 2 == q && a % 2 == r
  {
  }

  lemma DivModThree(a: int, q: int, r: int)
    requires 0 <= r < 3 && a == 3 * q + r
    ensures a / 3 == q && a % 3 == r
  {
  }

  lemma DivModFour(a: int, q: int, r: int)
    requires 0 <= r < 4 && a == 4 * q + r
    ensures a / 4 == q && a % 4 == r
  {
  }

  /**
   * Index 4(gq + r) + 2a + b is local cell (a, b) of the tile in tile row q
   * and tile column r, which is grid cell (2q + a, 2r + b).
   */
  lemma LaidOutCellOfParts(i: nat, g: nat, q: nat, r: nat, a: nat, b: nat)
    requires (g == 2 || g == 3) && r < g && a < 2 && b < 2 && i == 4 * (g * q + r) + 2 * a + b
    ensures LaidOutCell(i, g) == (2 * q + a, 2 * r + b)
  {
    var t := g * q + r;
    DivModFour(i, t, 2 * a + b);
    DivModTwo(2 * a + b, a, b);
    DivModTwo(i, 2 * t + a, b);
    if g == 2 {
      DivModTwo(t, q, r);
    } else {
      DivModThree(t, q, r);
    }
  }

  /** BuildIndex sends grid cell (2q + a, 2r + b) back to index 4(gq + r) + 2a + b. */
  lemma BuildIndexOfParts(x: Cell, g: nat, q: nat, r: nat, a: nat, b: nat)
    requires a < 2 && b < 2 && x == (2 * q + a, 2 * r + b)
    ensures BuildIndex(x, g) == 4 * (g * q + r) + 2 * a + b
  {
    DivModTwo(x.0, q, a);
    DivModTwo(x.1, r, b);
  }

  /** Splits index i into tile row q, tile column r and local cell (a, b): i = 4(gq + r) + 2a + b. */
  lemma IndexParts(i: nat, g: nat) returns (q: nat, r: nat, a: nat, b: nat)
    requires g == 2 || g == 3
    ensures r < g && a < 2 && b < 2 && i == 4 * (g * q + r) + 2 * a + b
    ensures i < 4 * g * g ==> q < g
  {
    var t, m := i / 4, i % 4;
    assert i == 4 * t + m;
    a, b := m / 2, m % 2;
    assert m == 2 * a + b;
    q, r := t / g, t % g;
    if g == 2 {
      assert t == 2 * q + r;
    } else {
      assert t == 3 * q + r;
    }
  }

  lemma NoviceLaidOutCell(i: nat)
    requires i < 16
    ensures InGrid(LaidOutCell(i, 2), 4) && BuildIndex(LaidOutCell(i, 2), 2) == i
  {
    var q, r, a, b := IndexParts(i, 2);
    LaidOutCellOfParts(i, 2, q, r, a, b);
    BuildIndexOfParts(LaidOutCell(i, 2), 2, q, r, a, b);
  }

  lemma VirtuosoLaidOutCell(i: nat)
    requires i < 36
    ensures InGrid(LaidOutCell(i, 3), 6) && BuildIndex(LaidOutCell(i, 3), 3) == i
  {
    var q, r, a, b := IndexParts(i, 3);
    LaidOutCellOfParts(i, 3, q, r, a, b);
    BuildIndexOfParts(LaidOutCell(i, 3), 3, q, r, a, b);
  }

  lemma NoviceBuildIndex(x: Cell)
    requires InGrid(x, 4)
    ensures 0 <= BuildIndex(x, 2) < 16 && LaidOutCell(BuildIndex(x, 2), 2) == x
  {
    var q, r, a, b := x.0 / 2, x.1 / 2, x.0 % 2, x.1 % 2;
    assert x == (2 * q + a, 2 * r + b);
    BuildIndexOfParts(x, 2, q, r, a, b);
    LaidOutCellOfParts(BuildIndex(x, 2), 2, q, r, a, b);
  }

  lemma VirtuosoBuildIndex(x: Cell)
    requires InGrid(x, 6)
    ensures 0 <= BuildIndex(x, 3) < 36 && LaidOutCell(BuildIndex(x, 3), 3) == x
  {
    var q, r, a, b := x.0 / 2, x.1 / 2, x.0 % 2, x.1 % 2;
    assert x == (2 * q + a, 2 * r + b);
    BuildIndexOfParts(x, 3, q, r, a, b);
    LaidOutCellOfParts(BuildIndex(x, 3), 3, q, r, a, b);
  }

  /** Every index of a full build lands in the puzzle grid, and BuildIndex recovers the index. */
  lemma LaidOutCellInverse(i: nat, d: Difficulty)
    requires i < PuzzleFragments(d) * PuzzleFragments(d)
    ensures InGrid(LaidOutCell(i, GridDimension(d)), PuzzleFragments(d))
    ensures BuildIndex(LaidOutCell(i, GridDimension(d)), GridDimension(d)) == i
  {
    match d
    case Novice => NoviceLaidOutCell(i);
    case Virtuoso => VirtuosoLaidOutCell(i);
  }

  /** Every cell of the puzzle grid is the LaidOutCell of the index BuildIndex gives it. */
  lemma BuildIndexInverse(x: Cell, d: Difficulty)
    requires InGrid(x, PuzzleFragments(d))
    ensures 0 <= BuildIndex(x, GridDimension(d)) < PuzzleFragments(d) * PuzzleFragments(d)
    ensures LaidOutCell(BuildIndex(x, GridDimension(d)), GridDimension(d)) == x
  {
    match d
    case Novice => NoviceBuildIndex(x);
    case Virtuoso => VirtuosoBuildIndex(x);
  }

  function CorrectCells(fs: seq<Fragment>): seq<Cell>
  {
    MapSeq(fs, CorrectCellOf)
  }

  /** Every cell of the p x p grid is the correct cell of exactly one fragment, and no other cell is. */
  ghost predicate CoversGridOnce(fs: seq<Fragment>, p: nat)
  {
    forall x :: multiset(CorrectCells(fs))[x] == if InGrid(x, p) then 1 else 0
  }

  /**
   * When every one of the g x g tiles loads, the built list has one fragment
   * per puzzle cell: the correct cells are a bijection onto the p x p grid,
   * and BuildIndex names the list index holding each cell.
   */
  lemma FullBuildCoversGrid(tiles: seq<Tile>, d: Difficulty, assets: Assets, cropping: Cropping, mint: Minting)
    requires |tiles| == GridDimension(d) * GridDimension(d)
    requires forall t :: 0 <= t < |tiles| ==> TileLoads(tiles[t], assets, cropping)
    ensures var built := BuiltFragments(tiles, d, assets, cropping, mint, |tiles|);
            |built| == PuzzleFragments(d) * PuzzleFragments(d)
            && CoversGridOnce(built, PuzzleFragments(d))
            && (forall i :: 0 <= i < |built| ==> CorrectCellOf(built[i]) == LaidOutCell(i, GridDimension(d)))
            && (forall i :: 0 <= i < |built| ==> BuildIndex(CorrectCellOf(built[i]), GridDimension(d)) == i)
  {
    var g, p := GridDimension(d), PuzzleFragments(d);
    var built := BuiltFragments(tiles, d, assets, cropping, mint, |tiles|);
    FullBuildLayout(tiles, d, assets, cropping, mint, |tiles|);
    ProfileShape(d);
    assert |built| == p * p;
    var cells := CorrectCells(built);
    forall i | 0 <= i < |built|
      ensures cells[i] == LaidOutCell(i, g)
    {
      assert built[i] == LaidOut(tiles, g, assets, cropping, mint, i);
      LaidOutCorrectCell(tiles, g, assets, cropping, mint, i);
    }
    CellsCoverGrid(cells, d);
  }

  /** The fragment a full build puts at index i belongs at LaidOutCell(i, g). */
  lemma LaidOutCorrectCell(tiles: seq<Tile>, g: nat, assets: Assets, cropping: Cropping, mint: Minting, i: nat)
    requires g > 0 && i / 4 < |tiles| && TileLoads(tiles[i / 4], assets, cropping)
    ensures CorrectCellOf(LaidOut(tiles, g, assets, cropping, mint, i)) == LaidOutCell(i, g)
  {
  }

  /** The cells LaidOutCell gives the indices of a full build cover the grid once each. */
  lemma CellsCoverGrid(cells: seq<Cell>, d: Difficulty)
    requires |cells| == PuzzleFragments(d) * PuzzleFragments(d)
    requires forall i :: 0 <= i < |cells| ==> cells[i] == LaidOutCell(i, GridDimension(d))
    ensures forall x :: multiset(cells)[x] == if InGrid(x, PuzzleFragments(d)) then 1 else 0
    ensures forall i :: 0 <= i < |cells| ==> BuildIndex(cells[i], GridDimension(d)) == i
  {
    var g, p := GridDimension(d), PuzzleFragments(d);
    forall i | 0 <= i < |cells|
      ensures InGrid(cells[i], p) && BuildIndex(cells[i], g) == i
    {
      LaidOutCellInverse(i, d);
    }
    assert Distinct(cells);
    forall x
      ensures multiset(cells)[x] == if InGrid(x, p) then 1 else 0
    {
      DistinctMultiplicity(cells, x);
      if InGrid(x, p) {
        BuildIndexInverse(x, d);
        assert cells[BuildIndex(x, g)] == x;
      }
    }
  }


  /** What of each fragment the list holds, apart from current cells. */
  function Pieces(fs: seq<Fragment>): seq<Piece>
  {
    MapSeq(fs, PieceOf)
  }

  /** Two lists hold the same fragments, in any order and at any current cells. */
  predicate SameFragments(a: seq<Fragment>, b: seq<Fragment>)
  {
    multiset(Pieces(a)) == multiset(Pieces(b))
  }

  /**
   * The position-update loop after a shuffle, swap or drop: index i gets the
   * current cell (i / p, i % p) and nothing else changes.
   */
  function Relabelled(fs: seq<Fragment>, p: nat): seq<Fragment>
    requires p > 0
  {
    seq(|fs|, i requires 0 <= i < |fs| => Relocate(fs[i], i / p, i % p))
  }

  /** Every fragment's current cell is the one its index determines. */
  predicate Positioned(fs: seq<Fragment>, p: nat)
    requires p > 0
  {
    forall i :: 0 <= i < |fs| ==> CurrentCellOf(fs[i]) == (i / p, i % p)
  }

  /** What `validatePuzzleSolution` checks: every fragment is in place. */
  predicate Solved(fs: seq<Fragment>)
  {
    forall i :: 0 <= i < |fs| ==> IsCorrectlyPositioned(fs[i])
  }

  /**
   * Relabelling keeps the length and the fragments, makes every current
   * cell index-derived, and changes nothing in a list that already is.
   */
  lemma RelabelledFacts(fs: seq<Fragment>, p: nat)
    requires p > 0
    ensures |Relabelled(fs, p)| == |fs|
    ensures Positioned(Relabelled(fs, p), p)
    ensures Pieces(Relabelled(fs, p)) == Pieces(fs)
    ensures Positioned(fs, p) ==> Relabelled(fs, p) == fs
  {
    var r := Relabelled(fs, p);
    assert forall i :: 0 <= i < |fs| ==> PieceOf(r[i]) == PieceOf(fs[i]);
    if Positioned(fs, p) {
      forall i | 0 <= i < |fs|
        ensures r[i] == fs[i]
      {
        assert CurrentCellOf(fs[i]) == (i / p, i % p);
      }
    }
  }

  /**
   * The "update current positions" loop both screens run after a shuffle,
   * swap or drop, rewriting each fragment's current cell in place.
   */
  method UpdateCurrentPositions(fragments: seq<Fragment>, puzzleFragments: nat) returns (updated: seq<Fragment>)
    requires puzzleFragments > 0
    ensures updated == Relabelled(fragments, puzzleFragments)
  {
    updated := fragments;
    for index := 0 to |updated|
      invariant |updated| == |fragments|
      invariant forall i :: 0 <= i < index ==> updated[i] == Relocate(fragments[i], i / puzzleFragments, i % puzzleFragments)
      invariant forall i :: index <= i < |updated| ==> updated[i] == fragments[i]
    {
      var row := index / puzzleFragments;
      var column := index % puzzleFragments;
      updated := updated[index := Relocate(updated[index], row, column)];
    }
  }

  /** `validatePuzzleSolution` of both screens: true exactly when every fragment sits in its own cell. */
  method ValidatePuzzleSolution(fragments: seq<Fragment>) returns (isCorrect: bool)
    ensures isCorrect <==> Solved(fragments)
  {
    for i := 0 to |fragments|
      invariant forall k :: 0 <= k < i ==> IsCorrectlyPositioned(fragments[k])
    {
      if !IsCorrectlyPositioned(fragments[i]) {
        return false;
      }
    }
    return true;
  }

  /** Relabelling only looks at what a fragment is, not at its old current cell. */
  lemma RelabelledByPieces(a: seq<Fragment>, b: seq<Fragment>, p: nat)
    requires p > 0 && Pieces(a) == Pieces(b)
    ensures Relabelled(a, p) == Relabelled(b, p)
  {
    assert |a| == |Pieces(a)| == |Pieces(b)| == |b|;
    forall i | 0 <= i < |a|
      ensures Relabelled(a, p)[i] == Relabelled(b, p)[i]
    {
      assert PieceOf(a[i]) == Pieces(a)[i] == Pieces(b)[i] == PieceOf(b[i]);
    }
  }

  /**
   * Tapping the same two fragments twice restores the list: a swap followed
   * by the position update is its own inverse.
   */
  lemma SwapTapsCancel(fs: seq<Fragment>, i: nat, j: nat, p: nat)
    requires p > 0 && Positioned(fs, p) && i < |fs| && j < |fs|
    ensures |Relabelled(Swapped(fs, i, j), p)| == |fs|
    ensures Relabelled(Swapped(Relabelled(Swapped(fs, i, j), p), i, j), p) == fs
  {
    var once := Relabelled(Swapped(fs, i, j), p);
    RelabelledFacts(Swapped(fs, i, j), p);
    MapSwapped(fs, i, j, PieceOf);
    MapSwapped(once, i, j, PieceOf);
    SwappedPermutes(Pieces(fs), i, j);
    RelabelledByPieces(Swapped(once, i, j), fs, p);
    RelabelledFacts(fs, p);
  }

  /**
   * Dragging a fragment back from its destination to its source restores the
   * list: a drop followed by the position update is undone by the reverse drop.
   */
  lemma DropsCancel(fs: seq<Fragment>, source: nat, destination: nat, p: nat)
    requires p > 0 && Positioned(fs, p) && source < |fs| && destination < |fs|
    ensures |Relabelled(Moved(fs, source, destination), p)| == |fs|
    ensures Relabelled(Moved(Relabelled(Moved(fs, source, destination), p), destination, source), p) == fs
  {
    var once := Relabelled(Moved(fs, source, destination), p);
    MovedAt(fs, source, destination);
    RelabelledFacts(Moved(fs, source, destination), p);
    MapMoved(fs, source, destination, PieceOf);
    MapMoved(once, destination, source, PieceOf);
    MovedPermutes(Pieces(fs), source, destination);
    RelabelledByPieces(Moved(once, destination, source), fs, p);
    RelabelledFacts(fs, p);
  }

  /** A drop followed by the position update keeps every fragment and gives each the cell of its index. */
  lemma DropKeepsFragments(fs: seq<Fragment>, created: seq<Fragment>, source: nat, destination: nat, p: nat)
    requires p > 0 && source < |fs| && destination < |fs| && SameFragments(fs, created)
    ensures var after := Relabelled(Moved(fs, source, destination), p);
            |after| == |fs| && Positioned(after, p) && SameFragments(after, created)
  {
    var moved := Moved(fs, source, destination);
    MapMoved(fs, source, destination, PieceOf);
    MovedPermutes(Pieces(fs), source, destination);
    RelabelledFacts(moved, p);
    assert SameFragments(moved, fs);
  }

  /** Permuting whole fragments keeps the same fragments. */
  lemma PermutationKeepsFragments(a: seq<Fragment>, b: seq<Fragment>)
    requires multiset(a) == multiset(b)
    ensures SameFragments(a, b)
  {
    MapMultiset(a, b, PieceOf);
  }

  function PieceCell(x: Piece): Cell
  {
    (x.correctRowPosition, x.correctColumnPosition)
  }

  /** The grid cover depends only on the fragments held, so no rearrangement can break it. */
  lemma SameFragmentsKeepCover(a: seq<Fragment>, b: seq<Fragment>, p: nat)
    requires SameFragments(a, b) && CoversGridOnce(b, p)
    ensures |a| == |b| && CoversGridOnce(a, p)
  {
    assert |a| == |multiset(Pieces(a))| == |multiset(Pieces(b))| == |b|;
    assert CorrectCells(a) == MapSeq(Pieces(a), PieceCell);
    assert CorrectCells(b) == MapSeq(Pieces(b), PieceCell);
    MapMultiset(Pieces(a), Pieces(b), PieceCell);
  }

  /** Validation of a positioned list succeeds exactly when index i holds the fragment of cell (i / p, i % p). */
  lemma SolvedMeansRowMajor(fs: seq<Fragment>, p: nat)
    requires p > 0 && Positioned(fs, p)
    ensures Solved(fs) <==> forall i :: 0 <= i < |fs| ==> CorrectCellOf(fs[i]) == (i / p, i % p)
  {
  }

  /** Two positioned, solved lists of the same fragments are the same list: the solution is unique. */
  lemma SolvedUnique(a: seq<Fragment>, b: seq<Fragment>, p: nat)
    requires p > 0 && SameFragments(a, b)
    requires Positioned(a, p) && Solved(a) && Positioned(b, p) && Solved(b)
    ensures a == b
  {
    assert |a| == |multiset(Pieces(a))| == |multiset(Pieces(b))| == |b|;
    forall i | 0 <= i < |a|
      ensures a[i] == b[i]
    {
      assert Pieces(a)[i] in multiset(Pieces(b));
      var j :| 0 <= j < |b| && Pieces(b)[j] == PieceOf(a[i]);
      SameSlot(a[i], b[j], i, j, p);
    }
  }

  /** Two in-place fragments with the same piece, at the cells of indices i and j, are one fragment at one index. */
  lemma SameSlot(x: Fragment, y: Fragment, i: nat, j: nat, p: nat)
    requires p > 0 && PieceOf(x) == PieceOf(y)
    requires IsCorrectlyPositioned(x) && IsCorrectlyPositioned(y)
    requires CurrentCellOf(x) == (i / p, i % p) && CurrentCellOf(y) == (j / p, j % p)
    ensures i == j && x == y
  {
    assert i == (i / p) * p + i % p && j == (j / p) * p + j % p;
  }

  lemma NoviceRowMajor(m: nat, x: Cell)
    ensures m < 16 ==> InGrid((m / 4, m % 4), 4)
    ensures InGrid(x, 4) ==> 0 <= x.0 * 4 + x.1 < 16 && ((x.0 * 4 + x.1) / 4, (x.0 * 4 + x.1) % 4) == x
  {
  }

  lemma VirtuosoRowMajor(m: nat, x: Cell)
    ensures m < 36 ==> InGrid((m / 6, m % 6), 6)
    ensures InGrid(x, 6) ==> 0 <= x.0 * 6 + x.1 < 36 && ((x.0 * 6 + x.1) / 6, (x.0 * 6 + x.1) % 6) == x
  {
  }

  /** Row-major numbering is a bijection between 0 .. p * p - 1 and the puzzle grid. */
  lemma RowMajorCell(m: nat, x: Cell, d: Difficulty)
    ensures m < PuzzleFragments(d) * PuzzleFragments(d) ==>
              InGrid((m / PuzzleFragments(d), m % PuzzleFragments(d)), PuzzleFragments(d))
    ensures InGrid(x, PuzzleFragments(d)) ==>
              0 <= x.0 * PuzzleFragments(d) + x.1 < PuzzleFragments(d) * PuzzleFragments(d)
              && ((x.0 * PuzzleFragments(d) + x.1) / PuzzleFragments(d), (x.0 * PuzzleFragments(d) + x.1) % PuzzleFragments(d)) == x
  {
    match d
    case Novice => NoviceRowMajor(m, x);
    case Virtuoso => VirtuosoRowMajor(m, x);
  }

  /** The shape a fully loaded build has: p * p fragments, the one at index i belonging at LaidOutCell(i). */
  predicate FullyLaidOut(built: seq<Fragment>, d: Difficulty)
  {
    |built| == PuzzleFragments(d) * PuzzleFragments(d)
    && forall i :: 0 <= i < |built| ==> CorrectCellOf(built[i]) == LaidOutCell(i, GridDimension(d))
  }

  /** The fragments of a full build, each moved to the index of its correct cell. */
  function SolvedOrder(built: seq<Fragment>, d: Difficulty): seq<Fragment>
    requires |built| == PuzzleFragments(d) * PuzzleFragments(d)
  {
    var p := PuzzleFragments(d);
    seq(p * p, m requires 0 <= m < p * p =>
      RowMajorCell(m, (0, 0), d);
      BuildIndexInverse((m / p, m % p), d);
      Relocate(built[BuildIndex((m / p, m % p), GridDimension(d))], m / p, m % p))
  }

  lemma SolvedOrderAt(built: seq<Fragment>, d: Difficulty, m: nat)
    requires FullyLaidOut(built, d) && m < |built|
    ensures var p := PuzzleFragments(d);
            var k := BuildIndex((m / p, m % p), GridDimension(d));
            0 <= k < |built|
            && SolvedOrder(built, d)[m] == Relocate(built[k], m / p, m % p)
            && CorrectCellOf(SolvedOrder(built, d)[m]) == (m / p, m % p)
  {
    var p := PuzzleFragments(d);
    RowMajorCell(m, (0, 0), d);
    BuildIndexInverse((m / p, m % p), d);
  }

  lemma SolvedOrderIsSolved(built: seq<Fragment>, d: Difficulty)
    requires FullyLaidOut(built, d)
    ensures |SolvedOrder(built, d)| == |built|
    ensures Positioned(SolvedOrder(built, d), PuzzleFragments(d)) && Solved(SolvedOrder(built, d))
  {
    forall m | 0 <= m < |built|
      ensures CorrectCellOf(SolvedOrder(built, d)[m]) == (m / PuzzleFragments(d), m % PuzzleFragments(d))
    {
      SolvedOrderAt(built, d, m);
    }
  }

  lemma LaidOutPiecesDistinct(built: seq<Fragment>, d: Difficulty)
    requires FullyLaidOut(built, d)
    ensures Distinct(Pieces(built))
  {
    var pb := Pieces(built);
    forall i, j | 0 <= i < j < |built|
      ensures pb[i] != pb[j]
    {
      LaidOutCellInverse(i, d);
      LaidOutCellInverse(j, d);
      assert PieceCell(pb[i]) == LaidOutCell(i, GridDimension(d)) && PieceCell(pb[j]) == LaidOutCell(j, GridDimension(d));
    }
  }

  lemma SolvedOrderPiecesDistinct(built: seq<Fragment>, d: Difficulty)
    requires FullyLaidOut(built, d)
    ensures Distinct(Pieces(SolvedOrder(built, d)))
  {
    var p := PuzzleFragments(d);
    var ps := Pieces(SolvedOrder(built, d));
    forall m, m' | 0 <= m < m' < |built|
      ensures ps[m] != ps[m']
    {
      SolvedOrderAt(built, d, m);
      SolvedOrderAt(built, d, m');
      assert m == (m / p) * p + m % p && m' == (m' / p) * p + m' % p;
    }
  }

  lemma BuiltPieceInSolvedOrder(built: seq<Fragment>, d: Difficulty, j: nat)
    requires FullyLaidOut(built, d) && j < |built|
    ensures Pieces(built)[j] in Pieces(SolvedOrder(built, d))
  {
    var m := LaidOutSlot(built, d, j);
    SolvedOrderPieceAt(built, d, j, m);
  }

  /** The fragment at index j of a full build belongs in the cell of row-major index m, and j is where that cell is built. */
  lemma LaidOutSlot(built: seq<Fragment>, d: Difficulty, j: nat) returns (m: nat)
    requires FullyLaidOut(built, d) && j < |built|
    ensures m < |built|
    ensures (m / PuzzleFragments(d), m % PuzzleFragments(d)) == CorrectCellOf(built[j])
    ensures BuildIndex(CorrectCellOf(built[j]), GridDimension(d)) == j
  {
    var c := CorrectCellOf(built[j]);
    assert c == LaidOutCell(j, GridDimension(d));
    LaidOutCellInverse(j, d);
    match d
    case Novice =>
      NoviceRowMajor(0, c);
      m := c.0 * 4 + c.1;
    case Virtuoso =>
      VirtuosoRowMajor(0, c);
      m := c.0 * 6 + c.1;
  }

  /** The solved order holds at index m the piece whose correct cell is (m / p, m % p). */
  lemma SolvedOrderPieceAt(built: seq<Fragment>, d: Difficulty, j: nat, m: nat)
    requires FullyLaidOut(built, d) && j < |built| && m < |built|
    requires (m / PuzzleFragments(d), m % PuzzleFragments(d)) == CorrectCellOf(built[j])
    requires BuildIndex(CorrectCellOf(built[j]), GridDimension(d)) == j
    ensures Pieces(SolvedOrder(built, d))[m] == Pieces(built)[j]
    ensures Pieces(built)[j] in Pieces(SolvedOrder(built, d))
  {
    SolvedOrderAt(built, d, m);
  }

  lemma SolvedOrderPieceInBuilt(built: seq<Fragment>, d: Difficulty, m: nat)
    requires FullyLaidOut(built, d) && m < |built|
    ensures Pieces(SolvedOrder(built, d))[m] in Pieces(built)
  {
    var p := PuzzleFragments(d);
    SolvedOrderAt(built, d, m);
    assert Pieces(SolvedOrder(built, d))[m] == Pieces(built)[BuildIndex((m / p, m % p), GridDimension(d))];
  }

  /** Reordering a full build by correct cell keeps the same fragments. */
  lemma SolvedOrderSameFragments(built: seq<Fragment>, d: Difficulty)
    requires FullyLaidOut(built, d)
    ensures SameFragments(SolvedOrder(built, d), built)
  {
    var ps, pb := Pieces(SolvedOrder(built, d)), Pieces(built);
    SolvedOrderPiecesDistinct(built, d);
    LaidOutPiecesDistinct(built, d);
    forall x
      ensures x in ps <==> x in pb
    {
      if x in pb {
        var j :| 0 <= j < |built| && pb[j] == x;
        BuiltPieceInSolvedOrder(built, d, j);
      }
      if x in ps {
        var m :| 0 <= m < |built| && ps[m] == x;
        SolvedOrderPieceInBuilt(built, d, m);
      }
    }
    DistinctSameElements(ps, pb);
  }

  /**
   * When every tile loads, the built fragments can be arranged so that
   * validation succeeds: every level that loads is solvable.
   */
  lemma FullBuildSolvable(tiles: seq<Tile>, d: Difficulty, assets: Assets, cropping: Cropping, mint: Minting)
    requires |tiles| == GridDimension(d) * GridDimension(d)
    requires forall t :: 0 <= t < |tiles| ==> TileLoads(tiles[t], assets, cropping)
    ensures exists s :: SameFragments(s, BuiltFragments(tiles, d, assets, cropping, mint, |tiles|))
                        && Positioned(s, PuzzleFragments(d)) && Solved(s)
  {
    var built := BuiltFragments(tiles, d, assets, cropping, mint, |tiles|);
    FullBuildCoversGrid(tiles, d, assets, cropping, mint);
    assert FullyLaidOut(built, d);
    SolvedOrderIsSolved(built, d);
    SolvedOrderSameFragments(built, d);
  }

  /**
   * Whatever order the built fragments are put in, when the g x g tiles all
   * load the list holds one fragment per puzzle cell, covers the grid once,
   * and some arrangement of it passes validation.
   */
  lemma {:induction false} RearrangedFullBuild(fs: seq<Fragment>, tiles: seq<Tile>, d: Difficulty, assets: Assets, cropping: Cropping, mint: Minting)
    requires SameFragments(fs, BuiltFragments(tiles, d, assets, cropping, mint, |tiles|))
    ensures |tiles| == GridDimension(d) * GridDimension(d)
            && (forall t :: 0 <= t < |tiles| ==> TileLoads(tiles[t], assets, cropping))
            ==> |fs| == PuzzleFragments(d) * PuzzleFragments(d)
                && CoversGridOnce(fs, PuzzleFragments(d))
                && exists s :: SameFragments(s, fs) && Positioned(s, PuzzleFragments(d)) && Solved(s)
  {
    if |tiles| == GridDimension(d) * GridDimension(d)
       && (forall t :: 0 <= t < |tiles| ==> TileLoads(tiles[t], assets, cropping))
    {
      var built := BuiltFragments(tiles, d, assets, cropping, mint, |tiles|);
      FullBuildCoversGrid(tiles, d, assets, cropping, mint);
      SameFragmentsKeepCover(fs, built, PuzzleFragments(d));
      FullBuildSolvable(tiles, d, assets, cropping, mint);
      var s :| SameFragments(s, built) && Positioned(s, PuzzleFragments(d)) && Solved(s);
      assert SameFragments(s, fs);
    }
  }
}
