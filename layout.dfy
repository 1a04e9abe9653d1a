/**
 * Pixel geometry of the grid world: the drawing constants, where each
 * block's square is painted, how large the canvas is, and how a cursor
 * position is turned into a column or row index.
 *
 * The same formulas are used for both axes, so every function here takes
 * one coordinate: a column index together with an x pixel, or a row index
 * together with a y pixel.
 */
module Layout {

  /** Edge length of the square painted for one block, in pixels. */
  const BlockSize: int := 30

  /** Width of the gap left between neighbouring squares, in pixels. */
  const BlockGap: int := 3

  /** Distance from one square's leading edge to the next square's. */
  const BlockOutline: int := BlockSize + BlockGap

  /** Half the gap (1.5 px), which hit-testing subtracts from the cursor. */
  const HalfGap: real := BlockGap as real / 2.0

  /** Canvas width for `cells` columns (or height for `cells` rows). */
  function CanvasExtent(cells: int): int
  {
    BlockOutline * cells + BlockGap
  }

  /** First pixel of the square painted for column (or row) `i`. */
  function SquareStart(i: int): int
  {
    BlockOutline * i + BlockGap
  }

  /** The pixel coordinate `c` lies on the square of column (or row) `i`. */
  predicate InSquare(i: int, c: real)
  {
    SquareStart(i) as real <= c < (SquareStart(i) + BlockSize) as real
  }

  /** Lower bound of the band of cursor positions that hit index `i`. */
  function HitStart(i: int): real
  {
    (BlockOutline * i) as real + HalfGap
  }

  /**
   * The column (or row) under cursor coordinate `c`: the gap's half is
   * subtracted and the result divided by the outline and rounded down.
   * Every index owns the half-open band [HitStart(i), HitStart(i + 1)).
   */
  function CellIndex(c: real): (i: int)
    ensures HitStart(i) <= c < HitStart(i + 1)
  {
    ((c - HalfGap) / BlockOutline as real).Floor
  }

  /** The bands partition the axis: `c` hits `i` exactly when it lies in i's band. */
  lemma CellIndexIff(c: real, i: int)
    ensures CellIndex(c) == i <==> HitStart(i) <= c < HitStart(i + 1)
  {
    var j := CellIndex(c);
    if j < i {
      assert HitStart(j + 1) <= HitStart(i);
    } else if i < j {
      assert HitStart(i + 1) <= HitStart(j);
    }
  }

  /**
   * For a whole-pixel cursor the index is (2c - 3) div 66, with floor
   * division (Dafny's division is floor division for a positive divisor).
   */
  lemma IntCursorIndex(c: int)
    ensures CellIndex(c as real) == (2 * c - BlockGap) / (2 * BlockOutline)
  {
    var q := (2 * c - BlockGap) / (2 * BlockOutline);
    var r := (2 * c - BlockGap) % (2 * BlockOutline);
    assert 2 * c - 3 == 66 * q + r && 0 <= r < 66;
    assert (66 * q + 3) as real <= 2.0 * c as real < (66 * q + 69) as real;
    CellIndexIff(c as real, q);
  }

  /**
   * A cursor anywhere on the painted square of index `i` hits index `i`:
   * the square [33i + 3, 33i + 33) lies inside i's band [33i + 1.5, 33i + 34.5).
   */
  lemma SquareHitsItsIndex(i: int, c: real)
    requires InSquare(i, c)
    ensures CellIndex(c) == i
  {
    assert HitStart(i) <= SquareStart(i) as real;
    assert (SquareStart(i) + BlockSize) as real <= HitStart(i + 1);
    CellIndexIff(c, i);
  }

  /**
   * A cursor on the gap after square `i` (pixels [33i + 33, 33i + 36)) is
   * not on any square, yet it still hits an index: `i` on the gap's first
   * 1.5 px and `i + 1` on its last 1.5 px.
   */
  lemma GapHitsNeighbour(i: int, c: real)
    requires (SquareStart(i) + BlockSize) as real <= c < SquareStart(i + 1) as real
    ensures forall j :: !InSquare(j, c)
    ensures CellIndex(c) == if c < HitStart(i + 1) then i else i + 1
  {
    forall j
      ensures !InSquare(j, c)
    {
      if j <= i {
        assert SquareStart(j) + BlockSize <= SquareStart(i) + BlockSize;
      } else {
        assert SquareStart(i + 1) <= SquareStart(j);
      }
    }
    if c < HitStart(i + 1) {
      CellIndexIff(c, i);
    } else {
      CellIndexIff(c, i + 1);
    }
  }

  /** The pixel (2, 2) lies on the gap before square 0, yet it hits index 0. */
  lemma GapPixelHitsFirstIndex()
    ensures forall j :: !InSquare(j, 2.0)
    ensures CellIndex(2.0) == 0
  {
    GapHitsNeighbour(-1, 2.0);
  }

  /** No pixel belongs to two painted squares. */
  lemma SquaresDisjoint(i: int, j: int, c: real)
    requires InSquare(i, c) && InSquare(j, c)
    ensures i == j
  {
    SquareHitsItsIndex(i, c);
    SquareHitsItsIndex(j, c);
  }

  /**
   * A cursor hits one of the indices 0 .. n-1 exactly when it lies in
   * [1.5, 33n + 1.5): the first 1.5 px and the last 1.5 px of a canvas of
   * n cells hit nothing.
   */
  lemma CellIndexInRange(c: real, n: int)
    ensures 0 <= CellIndex(c) < n <==> HalfGap <= c < HitStart(n)
  {
    var i := CellIndex(c);
    if 0 <= i < n {
      assert HitStart(0) <= HitStart(i) && HitStart(i + 1) <= HitStart(n);
    }
  }

  /**
   * Every square painted for an index below `n` is preceded by a full gap,
   * ends at or before 33n, and is followed by a full gap before the canvas
   * edge: it lies wholly inside a canvas of CanvasExtent(n) pixels.
   */
  lemma SquareInsideCanvas(i: int, n: int)
    requires 0 <= i < n
    ensures BlockGap <= SquareStart(i)
    ensures SquareStart(i) + BlockSize <= BlockOutline * n
    ensures SquareStart(i) + BlockSize + BlockGap <= CanvasExtent(n)
  {
    assert BlockOutline * i + BlockOutline <= BlockOutline * n;
  }

  /** The cursor at the canvas origin hits no index. */
  lemma OriginHitsNothing()
    ensures CellIndex(0.0) == -1
  {
    CellIndexIff(0.0, -1);
  }
}
