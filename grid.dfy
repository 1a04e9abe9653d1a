/**
 * The grid world: a block per cell, stored row by row, and the lookup from
 * a cursor position to the block under it.
 */
module Grid {
  import opened Layout

  datatype Option<T> = None | Some(value: T)

  /** Number of iterations of `for (i = 0; i < n; i++)` for a whole number n. */
  function LoopCount(n: int): nat
  {
    if n < 0 then 0 else n
  }

  /**
   * Storing `v` at index `i` of a growable array: it replaces the element at
   * an existing index and appends when `i` is one past the end.
   */
  function Store<T>(s: seq<T>, i: nat, v: T): (r: seq<T>)
    requires i <= |s|
    ensures |r| == if i < |s| then |s| else |s| + 1
    ensures r[i] == v
    ensures forall k :: 0 <= k < |s| && k != i ==> r[k] == s[k]
  {
    if i < |s| then s[i := v] else s + [v]
  }

  /** One cell of the grid; it knows its own column `x` and row `y`. */
  class Block {
    const x: int
    const y: int

    constructor (x: int, y: int)
      ensures this.x == x && this.y == y
    {
      this.x := x;
      this.y := y;
    }
  }

  /**
   * The coordinates of row `y` of a world `sizeX` columns wide, in the order
   * the filling loop creates them.
   */
  function Row(sizeX: int, y: int): seq<(int, int)>
  {
    if sizeX <= 0 then [] else Row(sizeX - 1, y) + [(sizeX - 1, y)]
  }

  /**
   * The coordinates of all rows of a `sizeX` by `sizeY` world, in the order
   * the filling loop creates them.
   */
  function Cells(sizeX: int, sizeY: int): seq<seq<(int, int)>>
  {
    if sizeY <= 0 then [] else Cells(sizeX, sizeY - 1) + [Row(sizeX, sizeY - 1)]
  }

  /** Row y has one entry per column, and entry x is (x, y). */
  lemma {:induction false} RowShape(sizeX: int, y: int)
    ensures |Row(sizeX, y)| == LoopCount(sizeX)
    ensures forall x :: 0 <= x < |Row(sizeX, y)| ==> Row(sizeX, y)[x] == (x, y)
  {
    if sizeX > 0 {
      RowShape(sizeX - 1, y);
    }
  }

  /**
   * A world has one row per row index and one entry per column in each row,
   * and the entry at [y][x] is (x, y): rows are indexed by y, columns by x.
   */
  lemma {:induction false} CellsShape(sizeX: int, sizeY: int)
    ensures |Cells(sizeX, sizeY)| == LoopCount(sizeY)
    ensures forall y :: 0 <= y < LoopCount(sizeY) ==> |Cells(sizeX, sizeY)[y]| == LoopCount(sizeX)
    ensures forall y, x :: 0 <= y < LoopCount(sizeY) && 0 <= x < LoopCount(sizeX) ==> Cells(sizeX, sizeY)[y][x] == (x, y)
  {
    if sizeY > 0 {
      CellsShape(sizeX, sizeY - 1);
      RowShape(sizeX, sizeY - 1);
    }
  }

  /** The coordinates the blocks of one row record. */
  function RowCoords(row: seq<Block>): seq<(int, int)>
  {
    seq(|row|, k requires 0 <= k < |row| => (row[k].x, row[k].y))
  }

  /** The coordinates the blocks of each row record. */
  function Coords(rows: seq<seq<Block>>): seq<seq<(int, int)>>
  {
    seq(|rows|, k requires 0 <= k < |rows| => RowCoords(rows[k]))
  }

  /** Appending the block (x, y) to row y's first x blocks gives its first x + 1. */
  lemma RowCoordsAppend(row: seq<Block>, b: Block, x: nat, y: int)
    requires RowCoords(row) == Row(x, y)
    requires b.x == x && b.y == y
    ensures RowCoords(row + [b]) == Row(x + 1, y)
  {
    assert RowCoords(row + [b]) == RowCoords(row) + [(x, y)];
  }

  /** Appending a complete row y to rows 0 .. y-1 gives rows 0 .. y. */
  lemma CoordsAppend(rows: seq<seq<Block>>, row: seq<Block>, sizeX: int, y: nat)
    requires Coords(rows) == Cells(sizeX, y)
    requires RowCoords(row) == Row(sizeX, y)
    ensures Coords(rows + [row]) == Cells(sizeX, y + 1)
  {
    assert Coords(rows + [row]) == Coords(rows) + [RowCoords(row)];
  }

  /**
   * Rows whose recorded coordinates are those of a `sizeX` by `sizeY` world
   * hold, at `rows[y][x]`, a block that records column x and row y.
   */
  lemma CoordsMatchCells(rows: seq<seq<Block>>, sizeX: int, sizeY: int)
    requires Coords(rows) == Cells(sizeX, sizeY)
    ensures |rows| == LoopCount(sizeY)
    ensures forall y :: 0 <= y < sizeY ==>
      |rows[y]| == LoopCount(sizeX) &&
      forall x :: 0 <= x < sizeX ==> rows[y][x].x == x && rows[y][x].y == y
  {
    CellsShape(sizeX, sizeY);
    forall y | 0 <= y < sizeY
      ensures |rows[y]| == LoopCount(sizeX)
    {
      assert |Coords(rows)[y]| == |rows[y]|;
    }
    forall y, x | 0 <= y < sizeY && 0 <= x < sizeX
      ensures rows[y][x].x == x && rows[y][x].y == y
    {
      assert Coords(rows)[y][x] == (rows[y][x].x, rows[y][x].y);
    }
  }

  class World {
    var sizeX: int
    var sizeY: int
    var blocks: seq<seq<Block>>

    /**
     * There are at least sizeY rows, each of the first sizeY rows has sizeX
     * blocks, and the block at blocks[y][x] records column x and row y.
     */
    ghost predicate Valid()
      reads this
    {
      LoopCount(sizeY) <= |blocks| &&
      forall y :: 0 <= y < sizeY ==>
        |blocks[y]| == LoopCount(sizeX) &&
        forall x :: 0 <= x < sizeX ==> blocks[y][x].x == x && blocks[y][x].y == y
    }

    /** A world of sizeY rows of sizeX blocks each. */
    constructor (sizeX: int, sizeY: int)
      ensures this.sizeX == sizeX && this.sizeY == sizeY
      ensures |blocks| == LoopCount(sizeY)
      ensures Valid()
      ensures forall y, x :: 0 <= y < LoopCount(sizeY) && 0 <= x < LoopCount(sizeX) ==> fresh(blocks[y][x])
    {
      this.sizeX := sizeX;
      this.sizeY := sizeY;
      blocks := [];
      new;
      FillWorld();
    }

    /**
     * Stores a fresh empty row at each index y below sizeY and fills it
     * with the blocks (0, y) .. (sizeX - 1, y); rows at index sizeY and
     * beyond are left as they were.
     */
    method FillWorld()
      modifies this`blocks
      ensures |blocks| == if |old(blocks)| < LoopCount(sizeY) then LoopCount(sizeY) else |old(blocks)|
      ensures forall k :: LoopCount(sizeY) <= k < |blocks| ==> blocks[k] == old(blocks)[k]
      ensures Coords(blocks[..LoopCount(sizeY)]) == Cells(sizeX, sizeY)
      ensures Valid()
      ensures forall y, x :: 0 <= y < LoopCount(sizeY) && 0 <= x < |blocks[y]| ==> fresh(blocks[y][x])
    {
      var y := 0;
      while y < sizeY
        invariant 0 <= y <= LoopCount(sizeY)
        invariant |blocks| == if |old(blocks)| < y then y else |old(blocks)|
        invariant forall k :: y <= k < |blocks| ==> blocks[k] == old(blocks)[k]
        invariant Coords(blocks[..y]) == Cells(sizeX, y)
        invariant forall k, j :: 0 <= k < y && 0 <= j < |blocks[k]| ==> fresh(blocks[k][j])
      {
        ghost var done := blocks[..y];
        blocks := Store(blocks, y, []);
        var x := 0;
        while x < sizeX
          invariant 0 <= x <= LoopCount(sizeX)
          invariant |blocks| == if |old(blocks)| < y + 1 then y + 1 else |old(blocks)|
          invariant forall k :: y < k < |blocks| ==> blocks[k] == old(blocks)[k]
          invariant blocks[..y] == done
          invariant |blocks[y]| == x
          invariant RowCoords(blocks[y]) == Row(x, y)
          invariant forall j :: 0 <= j < |blocks[y]| ==> fresh(blocks[y][j])
        {
          var b := new Block(x, y);
          ghost var before := blocks;
          blocks := blocks[y := Store(blocks[y], x, b)];
          assert blocks[..y] == before[..y];
          assert RowCoords(blocks[y]) == Row(x + 1, y) by {
            assert blocks[y] == before[y] + [b];
            RowCoordsAppend(before[y], b, x, y);
          }
          assert forall j :: 0 <= j < |blocks[y]| ==> fresh(blocks[y][j]) by {
            assert blocks[y] == before[y] + [b];
          }
          x := x + 1;
        }
        assert forall k, j :: 0 <= k < y + 1 && 0 <= j < |blocks[k]| ==> fresh(blocks[k][j]) by {
          forall k | 0 <= k < y
            ensures blocks[k] == done[k]
          {
            assert blocks[..y][k] == blocks[k];
          }
        }
        assert Coords(blocks[..y + 1]) == Cells(sizeX, y + 1) by {
          assert blocks[..y + 1] == done + [blocks[y]];
          assert Row(x, y) == Row(sizeX, y);
          CoordsAppend(done, blocks[y], sizeX, y);
        }
        y := y + 1;
      }
      assert y == LoopCount(sizeY) && Cells(sizeX, y) == Cells(sizeX, sizeY);
      CoordsMatchCells(blocks[..y], sizeX, sizeY);
    }

    /**
     * The block under the cursor (cursorX, cursorY), or None when the
     * cursor's column or row lies outside the world. Only reads the world.
     */
    method RaycastBlock(cursorX: real, cursorY: real) returns (r: Option<Block>)
      requires Valid()
      ensures r.None? <==> !(0 <= CellIndex(cursorX) < sizeX && 0 <= CellIndex(cursorY) < sizeY)
      ensures r.Some? ==> r.value == blocks[CellIndex(cursorY)][CellIndex(cursorX)]
      ensures r.Some? ==> r.value.x == CellIndex(cursorX) && r.value.y == CellIndex(cursorY)
      ensures forall x, y :: 0 <= x < sizeX && 0 <= y < sizeY && InSquare(x, cursorX) && InSquare(y, cursorY) ==>
        r == Some(blocks[y][x])
    {
      var x := CellIndex(cursorX);
      var y := CellIndex(cursorY);
      forall i | InSquare(i, cursorX)
        ensures i == x
      {
        SquareHitsItsIndex(i, cursorX);
      }
      forall j | InSquare(j, cursorY)
        ensures j == y
      {
        SquareHitsItsIndex(j, cursorY);
      }
      if x < 0 || x >= sizeX || y < 0 || y >= sizeY {
        return None;
      }
      return Some(blocks[y][x]);
    }
  }

  /**
   * The world the page creates, 30 by 30 blocks on a canvas CanvasExtent(30)
   * = 993 pixels wide: the canvas corner hits nothing, the cursor at (50, 83)
   * hits the block in column 1, row 2, and the canvas's last pixel column
   * (x = 992) hits nothing.
   */
  method PageWorld() returns (corner: Option<Block>, inside: Option<Block>, edge: Option<Block>)
    ensures corner == None
    ensures inside.Some? && inside.value.x == 1 && inside.value.y == 2
    ensures edge == None
  {
    var world := new World(30, 30);
    OriginHitsNothing();
    CellIndexIff(50.0, 1);
    CellIndexIff(83.0, 2);
    corner := world.RaycastBlock(0.0, 0.0);
    inside := world.RaycastBlock(50.0, 83.0);
    var lastColumn := CanvasExtent(30) - 1;
    assert lastColumn == 992;
    CellIndexIff(lastColumn as real, 30);
    edge := world.RaycastBlock(lastColumn as real, 50.0);
  }
}
