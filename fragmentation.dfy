/**
 * Slicing a tile image into a matrix of fragments, recomposing a matrix into
 * one canvas, and the fragment record of the puzzle (FragmentationAlchemy.swift).
 *
 * Pixels are opaque: an image is its integer size and, when it has one, the
 * bitmap behind it (`cgImage`). Cropping is done by CoreGraphics, outside the
 * model, so its outcome for each lattice cell is an input.
 */
module Fragmentation {

  import opened Wrappers

  /** Pixel content of a bitmap; the model never looks inside it. */
  datatype Bitmap = Bitmap(content: nat)

  /** A `UIImage`: the bitmap behind it, if any, and its size in whole points. */
  datatype Picture = Picture(backing: Option<Bitmap>, width: nat, height: nat)

  /**
   * Cell (row, column) of a perAxis x perAxis lattice laid over a bitmap;
   * stands for the crop rectangle that the source computes in `CGFloat`.
   */
  datatype Lattice = Lattice(row: nat, column: nat, perAxis: nat)

  /** The result of `cgImage.cropping(to:)` for a lattice cell, wrapped as a `UIImage`. */
  type Cropping = (Bitmap, Lattice) -> Option<Picture>

  /** The successful crops of cells (row, 0) .. (row, k - 1), in column order. */
  function CropRow(b: Bitmap, row: nat, perAxis: nat, k: nat, cropping: Cropping): seq<Picture>
  {
    if k == 0 then []
    else
      CropRow(b, row, perAxis, k - 1, cropping)
      + match cropping(b, Lattice(row, k - 1, perAxis))
        case Some(p) => [p]
        case None => []
  }

  /** What `dissectImageIntoFragments` returns. */
  function Dissection(image: Picture, fragmentsPerAxis: nat, cropping: Cropping): seq<seq<Picture>>
  {
    match image.backing
    case None => []
    case Some(b) => seq(fragmentsPerAxis, r requires 0 <= r => CropRow(b, r, fragmentsPerAxis, fragmentsPerAxis, cropping))
  }

  /** Every cell of row `row` crops successfully. */
  predicate RowCrops(b: Bitmap, row: nat, perAxis: nat, cropping: Cropping)
  {
    forall c :: 0 <= c < perAxis ==> cropping(b, Lattice(row, c, perAxis)).Some?
  }

  /** Every cell of the n x n lattice crops successfully. */
  predicate AllCrop(b: Bitmap, n: nat, cropping: Cropping)
  {
    forall r, c :: 0 <= r < n && 0 <= c < n ==> cropping(b, Lattice(r, c, n)).Some?
  }

  /** `dissectImageIntoFragments(image:fragmentsPerAxis:)`: nested loops appending crops row by row. */
  method DissectImageIntoFragments(image: Picture, fragmentsPerAxis: nat, cropping: Cropping)
    returns (fragmentMatrix: seq<seq<Picture>>)
    ensures fragmentMatrix == Dissection(image, fragmentsPerAxis, cropping)
  {
    if image.backing.None? {
      return [];
    }
    var cgImage := image.backing.value;
    fragmentMatrix := [];
    var rowIndex := 0;
    while rowIndex < fragmentsPerAxis
      invariant rowIndex <= fragmentsPerAxis
      invariant |fragmentMatrix| == rowIndex
      invariant forall r :: 0 <= r < rowIndex ==>
                  fragmentMatrix[r] == CropRow(cgImage, r, fragmentsPerAxis, fragmentsPerAxis, cropping)
    {
      var rowFragments := [];
      var columnIndex := 0;
      while columnIndex < fragmentsPerAxis
        invariant columnIndex <= fragmentsPerAxis
        invariant rowFragments == CropRow(cgImage, rowIndex, fragmentsPerAxis, columnIndex, cropping)
      {
        var cropped := cropping(cgImage, Lattice(rowIndex, columnIndex, fragmentsPerAxis));
        if cropped.Some? {
          rowFragments := rowFragments + [cropped.value];
        }
        columnIndex := columnIndex + 1;
      }
      fragmentMatrix := fragmentMatrix + [rowFragments];
      rowIndex := rowIndex + 1;
    }
  }

  /**
   * A row holds at most k crops, exactly k precisely when every cell of it
   * crops, and then the crop of column c sits at index c.
   */
  lemma {:induction false} CropRowShape(b: Bitmap, row: nat, perAxis: nat, k: nat, cropping: Cropping)
    ensures |CropRow(b, row, perAxis, k, cropping)| <= k
    ensures |CropRow(b, row, perAxis, k, cropping)| == k <==>
            forall c :: 0 <= c < k ==> cropping(b, Lattice(row, c, perAxis)).Some?
    ensures (forall c :: 0 <= c < k ==> cropping(b, Lattice(row, c, perAxis)).Some?) ==>
            forall c :: 0 <= c < k ==> CropRow(b, row, perAxis, k, cropping)[c] == cropping(b, Lattice(row, c, perAxis)).value
  {
    if k > 0 {
      CropRowShape(b, row, perAxis, k - 1, cropping);
    }
  }

  /**
   * Without a bitmap the matrix is empty; with one it has exactly
   * fragmentsPerAxis rows of at most fragmentsPerAxis fragments each, and a
   * row is full exactly when all of its crops succeed.
   */
  lemma DissectionShape(image: Picture, n: nat, cropping: Cropping)
    ensures image.backing.None? ==> Dissection(image, n, cropping) == []
    ensures image.backing.Some? ==> |Dissection(image, n, cropping)| == n
    ensures forall r :: 0 <= r < |Dissection(image, n, cropping)| ==> |Dissection(image, n, cropping)[r]| <= n
    ensures image.backing.Some? ==>
            forall r :: 0 <= r < n ==>
              (|Dissection(image, n, cropping)[r]| == n <==> RowCrops(image.backing.value, r, n, cropping))
  {
    if image.backing.Some? {
      forall r | 0 <= r < n
        ensures |Dissection(image, n, cropping)[r]| <= n
        ensures |Dissection(image, n, cropping)[r]| == n <==> RowCrops(image.backing.value, r, n, cropping)
      {
        CropRowShape(image.backing.value, r, n, n, cropping);
      }
    }
  }

  /** When every crop succeeds the matrix is the n x n crops in row-major order. */
  lemma DissectionFull(image: Picture, n: nat, cropping: Cropping)
    requires image.backing.Some? && AllCrop(image.backing.value, n, cropping)
    ensures |Dissection(image, n, cropping)| == n
    ensures forall r, c :: 0 <= r < n && 0 <= c < n ==>
              |Dissection(image, n, cropping)[r]| == n &&
              Dissection(image, n, cropping)[r][c] == cropping(image.backing.value, Lattice(r, c, n)).value
  {
    forall r | 0 <= r < n
      ensures |Dissection(image, n, cropping)[r]| == n
      ensures forall c :: 0 <= c < n ==>
                Dissection(image, n, cropping)[r][c] == cropping(image.backing.value, Lattice(r, c, n)).value
    {
      CropRowShape(image.backing.value, r, n, n, cropping);
    }
  }

  /** One `fragment.draw(in:)` call: the image and the rectangle it fills. */
  datatype Placement = Placement(image: Picture, originX: nat, originY: nat, width: nat, height: nat)

  /** The drawing context's result: its size and the draws made on it, in order. */
  datatype Canvas = Canvas(width: nat, height: nat, placements: seq<Placement>)

  /** Draws of row[0 .. k - 1] of row `row`, each in its w x h cell. */
  function RowPlacements(row: seq<Picture>, rowIndex: nat, w: nat, h: nat, k: nat): seq<Placement>
    requires k <= |row|
  {
    if k == 0 then []
    else RowPlacements(row, rowIndex, w, h, k - 1) + [Placement(row[k - 1], (k - 1) * w, rowIndex * h, w, h)]
  }

  /** Draws of rows 0 .. k - 1 of the matrix. */
  function MatrixPlacements(fragments: seq<seq<Picture>>, w: nat, h: nat, k: nat): seq<Placement>
    requires k <= |fragments|
  {
    if k == 0 then []
    else MatrixPlacements(fragments, w, h, k - 1) + RowPlacements(fragments[k - 1], k - 1, w, h, |fragments[k - 1]|)
  }

  /** What `amalgamateFragmentsIntoImage` returns. */
  function Amalgamation(fragments: seq<seq<Picture>>): Option<Canvas>
  {
    if |fragments| == 0 || |fragments[0]| == 0 then None
    else
      var w, h := fragments[0][0].width, fragments[0][0].height;
      Some(Canvas(w * |fragments[0]|, h * |fragments|, MatrixPlacements(fragments, w, h, |fragments|)))
  }

  /** `amalgamateFragmentsIntoImage(fragments:)`: the guard, the canvas size, and nested loops of draws. */
  method AmalgamateFragmentsIntoImage(fragments: seq<seq<Picture>>) returns (canvas: Option<Canvas>)
    ensures canvas == Amalgamation(fragments)
  {
    if |fragments| == 0 || |fragments[0]| == 0 {
      return None;
    }
    var rowQuantity := |fragments|;
    var columnQuantity := |fragments[0]|;
    var fragmentWidth, fragmentHeight := fragments[0][0].width, fragments[0][0].height;
    var placements := [];
    var rowIndex := 0;
    while rowIndex < rowQuantity
      invariant rowIndex <= rowQuantity
      invariant placements == MatrixPlacements(fragments, fragmentWidth, fragmentHeight, rowIndex)
    {
      var rowFragments := fragments[rowIndex];
      var columnIndex := 0;
      while columnIndex < |rowFragments|
        invariant columnIndex <= |rowFragments|
        invariant placements == MatrixPlacements(fragments, fragmentWidth, fragmentHeight, rowIndex)
                                + RowPlacements(rowFragments, rowIndex, fragmentWidth, fragmentHeight, columnIndex)
      {
        placements := placements + [Placement(rowFragments[columnIndex], columnIndex * fragmentWidth,
                                              rowIndex * fragmentHeight, fragmentWidth, fragmentHeight)];
        columnIndex := columnIndex + 1;
      }
      rowIndex := rowIndex + 1;
    }
    canvas := Some(Canvas(fragmentWidth * columnQuantity, fragmentHeight * rowQuantity, placements));
  }

  /** Number of fragments in rows 0 .. k - 1. */
  function CellsBefore(fragments: seq<seq<Picture>>, k: nat): nat
    requires k <= |fragments|
  {
    if k == 0 then 0 else CellsBefore(fragments, k - 1) + |fragments[k - 1]|
  }

  lemma {:induction false} RowPlacementsAt(row: seq<Picture>, rowIndex: nat, w: nat, h: nat, k: nat)
    requires k <= |row|
    ensures |RowPlacements(row, rowIndex, w, h, k)| == k
    ensures forall c :: 0 <= c < k ==> RowPlacements(row, rowIndex, w, h, k)[c] == Placement(row[c], c * w, rowIndex * h, w, h)
  {
    if k > 0 {
      RowPlacementsAt(row, rowIndex, w, h, k - 1);
    }
  }

  lemma {:induction false} MatrixPlacementsLength(fragments: seq<seq<Picture>>, w: nat, h: nat, k: nat)
    requires k <= |fragments|
    ensures |MatrixPlacements(fragments, w, h, k)| == CellsBefore(fragments, k)
  {
    if k > 0 {
      MatrixPlacementsLength(fragments, w, h, k - 1);
      RowPlacementsAt(fragments[k - 1], k - 1, w, h, |fragments[k - 1]|);
    }
  }

  /**
   * Fragment (r, c) of the matrix is the draw numbered CellsBefore(r) + c,
   * so the draws go in row-major order, each at the origin (c * w, r * h) of
   * a w x h cell.
   */
  lemma {:induction false} MatrixPlacementAt(fragments: seq<seq<Picture>>, w: nat, h: nat, k: nat, r: nat, c: nat)
    requires r < k <= |fragments| && c < |fragments[r]|
    ensures CellsBefore(fragments, r) + c < |MatrixPlacements(fragments, w, h, k)|
    ensures MatrixPlacements(fragments, w, h, k)[CellsBefore(fragments, r) + c] == Placement(fragments[r][c], c * w, r * h, w, h)
  {
    var before := MatrixPlacements(fragments, w, h, k - 1);
    var last := RowPlacements(fragments[k - 1], k - 1, w, h, |fragments[k - 1]|);
    assert MatrixPlacements(fragments, w, h, k) == before + last;
    MatrixPlacementsLength(fragments, w, h, k - 1);
    RowPlacementsAt(fragments[k - 1], k - 1, w, h, |fragments[k - 1]|);
    if r < k - 1 {
      MatrixPlacementAt(fragments, w, h, k - 1, r, c);
    } else {
      assert (before + last)[CellsBefore(fragments, r) + c] == last[c];
    }
  }

  lemma {:induction false} CellsBeforeMonotone(fragments: seq<seq<Picture>>, r: nat, k: nat)
    requires r < k <= |fragments|
    ensures CellsBefore(fragments, r) + |fragments[r]| <= CellsBefore(fragments, k)
  {
    if r < k - 1 {
      CellsBeforeMonotone(fragments, r, k - 1);
    }
  }

  /**
   * Cutting an image whose crops all succeed and are all w x h, then
   * recomposing the pieces, gives an n*w x n*h canvas with crop (r, c)
   * drawn at (c * w, r * h).
   */
  lemma DissectThenAmalgamate(image: Picture, n: nat, cropping: Cropping, w: nat, h: nat)
    requires n >= 1 && image.backing.Some? && AllCrop(image.backing.value, n, cropping)
    requires forall r, c :: 0 <= r < n && 0 <= c < n ==>
               cropping(image.backing.value, Lattice(r, c, n)).value.width == w &&
               cropping(image.backing.value, Lattice(r, c, n)).value.height == h
    ensures var canvas := Amalgamation(Dissection(image, n, cropping));
            && canvas.Some?
            && canvas.value.width == n * w && canvas.value.height == n * h
            && |canvas.value.placements| == n * n
            && forall r, c :: 0 <= r < n && 0 <= c < n ==>
                 DrawnAt(canvas.value, r * n + c,
                         Placement(cropping(image.backing.value, Lattice(r, c, n)).value, c * w, r * h, w, h))
  {
    var b := image.backing.value;
    var m := Dissection(image, n, cropping);
    DissectionFull(image, n, cropping);
    assert m[0][0] == cropping(b, Lattice(0, 0, n)).value;
    var ps := MatrixPlacements(m, w, h, n);
    assert Amalgamation(m) == Some(Canvas(w * n, h * n, ps));
    MatrixPlacementsLength(m, w, h, n);
    FullRowsCount(m, n, n);
    forall r, c | 0 <= r < n && 0 <= c < n
      ensures r * n + c < |ps|
      ensures ps[r * n + c] == Placement(cropping(b, Lattice(r, c, n)).value, c * w, r * h, w, h)
    {
      FullRowsCount(m, n, r);
      CellsBeforeMonotone(m, r, n);
      MatrixPlacementAt(m, w, h, n, r, c);
    }
    assert w * n == n * w && h * n == n * h;
    assert Amalgamation(Dissection(image, n, cropping)) == Some(Canvas(n * w, n * h, ps));
  }

  /**
   * The recomposition fails exactly when the matrix or its first row is
   * empty; otherwise the canvas is the first fragment's size times the
   * column and row counts, and fragment (r, c) is drawn, in row-major order,
   * at (c * w, r * h) in a w x h rectangle.
   */
  lemma AmalgamationShape(fragments: seq<seq<Picture>>)
    ensures Amalgamation(fragments).None? <==> |fragments| == 0 || |fragments[0]| == 0
    ensures Amalgamation(fragments).Some? ==>
              var w, h := fragments[0][0].width, fragments[0][0].height;
              var canvas := Amalgamation(fragments).value;
              && canvas.width == w * |fragments[0]| && canvas.height == h * |fragments|
              && |canvas.placements| == CellsBefore(fragments, |fragments|)
              && forall r, c :: 0 <= r < |fragments| && 0 <= c < |fragments[r]| ==>
                   DrawnAt(canvas, CellsBefore(fragments, r) + c, Placement(fragments[r][c], c * w, r * h, w, h))
  {
    if |fragments| > 0 && |fragments[0]| > 0 {
      var w, h := fragments[0][0].width, fragments[0][0].height;
      MatrixPlacementsLength(fragments, w, h, |fragments|);
      forall r, c | 0 <= r < |fragments| && 0 <= c < |fragments[r]|
        ensures DrawnAt(Amalgamation(fragments).value, CellsBefore(fragments, r) + c, Placement(fragments[r][c], c * w, r * h, w, h))
      {
        MatrixPlacementAt(fragments, w, h, |fragments|, r, c);
      }
    }
  }

  /** The draw numbered k on the canvas is p. */
  predicate DrawnAt(canvas: Canvas, k: nat, p: Placement)
  {
    k < |canvas.placements| && canvas.placements[k] == p
  }

  lemma {:induction false} FullRowsCount(m: seq<seq<Picture>>, n: nat, k: nat)
    requires k <= |m|
    requires forall r :: 0 <= r < |m| ==> |m[r]| == n
    ensures CellsBefore(m, k) == k * n
  {
    if k > 0 {
      FullRowsCount(m, n, k - 1);
    }
  }

  /** `TessellationFragment`. The correct cell is `let`; the current cell is `var`. */
  datatype Fragment = Fragment(
    fragmentImage: Picture,
    correctRowPosition: int,
    correctColumnPosition: int,
    currentRowPosition: int,
    currentColumnPosition: int,
    uniqueIdentifier: string)

  /** What of a fragment no manipulation may change: everything but its current cell. */
  datatype Piece = Piece(fragmentImage: Picture, correctRowPosition: int, correctColumnPosition: int, uniqueIdentifier: string)

  function PieceOf(f: Fragment): Piece
  {
    Piece(f.fragmentImage, f.correctRowPosition, f.correctColumnPosition, f.uniqueIdentifier)
  }

  /** `isCorrectlyPositioned`. */
  predicate IsCorrectlyPositioned(f: Fragment)
  {
    f.correctRowPosition == f.currentRowPosition && f.correctColumnPosition == f.currentColumnPosition
  }

  /** Assigning the current cell, as `fragments[i].currentRowPosition = ...` does. */
  function Relocate(f: Fragment, row: int, column: int): (g: Fragment)
    ensures PieceOf(g) == PieceOf(f)
    ensures g.currentRowPosition == row && g.currentColumnPosition == column
  {
    f.(currentRowPosition := row, currentColumnPosition := column)
  }

  /** A fragment is in place at a cell exactly when that cell is its correct one. */
  lemma RelocateCorrectly(f: Fragment, row: int, column: int)
    ensures IsCorrectlyPositioned(Relocate(f, row, column)) <==>
            row == f.correctRowPosition && column == f.correctColumnPosition
  {
  }
}
