/** The apple: a single position, placed on a free cell chosen among all grid
    cells that are not excluded. */
module Apples {
  import opened Grid
  import opened Sequences

  /** The inner loop of the free-cell comprehension: the cells of column `x`
      from row offset `y` downwards, skipping excluded ones. */
  function FreeColumn(x: int, y: int, exclude: seq<Pos>): seq<Pos>
    decreases ScreenHeight - y
  {
    if y > ScreenHeight - GridSize then []
    else (if Pos(x, y) in exclude then [] else [Pos(x, y)]) + FreeColumn(x, y + GridSize, exclude)
  }

  /** The outer loop: the free cells of every column from `x` rightwards. */
  function FreeFrom(x: int, exclude: seq<Pos>): seq<Pos>
    decreases ScreenWidth - x
  {
    if x > ScreenWidth - GridSize then []
    else FreeColumn(x, 0, exclude) + FreeFrom(x + GridSize, exclude)
  }

  /** All grid cells not in `exclude`, column by column, top to bottom. */
  function FreeCells(exclude: seq<Pos>): seq<Pos> {
    FreeFrom(0, exclude)
  }

  lemma {:induction false} FreeColumnMembers(x: int, y: int, exclude: seq<Pos>, p: Pos)
    requires y >= 0 && Aligned(y)
    ensures p in FreeColumn(x, y, exclude) <==>
              p.x == x && y <= p.y <= ScreenHeight - GridSize && Aligned(p.y) && p !in exclude
    decreases ScreenHeight - y
  {
    if y <= ScreenHeight - GridSize {
      var here := if Pos(x, y) in exclude then [] else [Pos(x, y)];
      var rest := FreeColumn(x, y + GridSize, exclude);
      assert p in FreeColumn(x, y, exclude) <==> p in here || p in rest;
      AlignedNext(y);
      FreeColumnMembers(x, y + GridSize, exclude, p);
      if y <= p.y && Aligned(p.y) {
        AlignedGap(y, p.y);
      }
    } else {
      assert FreeColumn(x, y, exclude) == [];
      if y <= p.y {
        AlignedGap(ScreenHeight - GridSize, y);
      }
    }
  }

  /** Every cell of `FreeFrom(x, _)` is on the grid, in column `x` or to its
      right, and not excluded. */
  lemma {:induction false} FreeFromSound(x: int, exclude: seq<Pos>, p: Pos)
    requires x >= 0 && Aligned(x) && p in FreeFrom(x, exclude)
    ensures x <= p.x && OnGrid(p) && p !in exclude
    decreases ScreenWidth - x
  {
    var col, rest := FreeColumn(x, 0, exclude), FreeFrom(x + GridSize, exclude);
    assert x <= ScreenWidth - GridSize;
    assert FreeFrom(x, exclude) == col + rest;
    if p in col {
      FreeColumnMembers(x, 0, exclude, p);
    } else {
      AlignedNext(x);
      FreeFromSound(x + GridSize, exclude, p);
    }
  }

  /** Every grid cell in column `x` or to its right that is not excluded is
      in `FreeFrom(x, _)`. */
  lemma {:induction false} FreeFromComplete(x: int, exclude: seq<Pos>, p: Pos)
    requires x >= 0 && Aligned(x) && x <= p.x && OnGrid(p) && p !in exclude
    ensures p in FreeFrom(x, exclude)
    decreases ScreenWidth - x
  {
    var col, rest := FreeColumn(x, 0, exclude), FreeFrom(x + GridSize, exclude);
    assert x <= ScreenWidth - GridSize;
    assert FreeFrom(x, exclude) == col + rest;
    if p.x == x {
      FreeColumnMembers(x, 0, exclude, p);
      assert p in col;
    } else {
      AlignedGap(x, p.x);
      AlignedNext(x);
      FreeFromComplete(x + GridSize, exclude, p);
      assert p in rest;
    }
  }

  /** A cell is a candidate exactly when it is on the grid and not excluded. */
  lemma FreeCellsMembers(exclude: seq<Pos>, p: Pos)
    ensures p in FreeCells(exclude) <==> OnGrid(p) && p !in exclude
  {
    if p in FreeCells(exclude) {
      FreeFromSound(0, exclude, p);
    }
    if OnGrid(p) && p !in exclude {
      FreeFromComplete(0, exclude, p);
    }
  }

  /** The candidate list is empty exactly when every cell is excluded. */
  lemma FreeCellsEmpty(exclude: seq<Pos>)
    ensures FreeCells(exclude) == [] <==> forall p :: OnGrid(p) ==> p in exclude
  {
    if FreeCells(exclude) == [] {
      forall p | OnGrid(p) ensures p in exclude {
        FreeCellsMembers(exclude, p);
      }
    } else {
      FreeCellsMembers(exclude, FreeCells(exclude)[0]);
    }
  }

  /** Every cell of `FreeColumn(x, y, _)` lies in column `x`. */
  lemma {:induction false} FreeColumnWithin(x: int, y: int, exclude: seq<Pos>, e: Pos)
    requires e in FreeColumn(x, y, exclude)
    ensures e.x == x
    decreases ScreenHeight - y
  {
    assert y <= ScreenHeight - GridSize;
    if e != Pos(x, y) {
      assert e in FreeColumn(x, y + GridSize, exclude);
      FreeColumnWithin(x, y + GridSize, exclude, e);
    }
  }

  /** Every cell of `FreeFrom(x, _)` lies in column `x` or to its right. */
  lemma {:induction false} FreeFromWithin(x: int, exclude: seq<Pos>, e: Pos)
    requires e in FreeFrom(x, exclude)
    ensures e.x >= x
    decreases ScreenWidth - x
  {
    assert x <= ScreenWidth - GridSize;
    if e in FreeColumn(x, 0, exclude) {
      FreeColumnWithin(x, 0, exclude, e);
    } else {
      FreeFromWithin(x + GridSize, exclude, e);
    }
  }

  lemma {:induction false} FreeColumnDistinct(x: int, y: int, exclude: seq<Pos>)
    requires y >= 0 && Aligned(y)
    ensures Distinct(FreeColumn(x, y, exclude))
    decreases ScreenHeight - y
  {
    if y <= ScreenHeight - GridSize {
      var here := if Pos(x, y) in exclude then [] else [Pos(x, y)];
      var rest := FreeColumn(x, y + GridSize, exclude);
      AlignedNext(y);
      FreeColumnDistinct(x, y + GridSize, exclude);
      FreeColumnMembers(x, y + GridSize, exclude, Pos(x, y));
      DistinctConcat(here, rest);
    }
  }

  lemma {:induction false} FreeFromDistinct(x: int, exclude: seq<Pos>)
    requires x >= 0 && Aligned(x)
    ensures Distinct(FreeFrom(x, exclude))
    decreases ScreenWidth - x
  {
    if x <= ScreenWidth - GridSize {
      var col, rest := FreeColumn(x, 0, exclude), FreeFrom(x + GridSize, exclude);
      AlignedNext(x);
      FreeColumnDistinct(x, 0, exclude);
      FreeFromDistinct(x + GridSize, exclude);
      ColumnBeforeRest(x, exclude);
      DistinctConcat(col, rest);
    }
  }

  /** No cell of column `x` is among the columns to its right. */
  lemma ColumnBeforeRest(x: int, exclude: seq<Pos>)
    ensures forall e :: e in FreeColumn(x, 0, exclude) ==> e !in FreeFrom(x + GridSize, exclude)
  {
    forall e | e in FreeColumn(x, 0, exclude) ensures e !in FreeFrom(x + GridSize, exclude) {
      FreeColumnWithin(x, 0, exclude, e);
      if e in FreeFrom(x + GridSize, exclude) {
        FreeFromWithin(x + GridSize, exclude, e);
      }
    }
  }

  /** No cell is offered twice. */
  lemma FreeCellsDistinct(exclude: seq<Pos>)
    ensures Distinct(FreeCells(exclude))
  {
    FreeFromDistinct(0, exclude);
  }

  lemma {:induction false} FreeColumnCount(x: int, y: int)
    requires 0 <= y <= ScreenHeight && Aligned(y)
    ensures |FreeColumn(x, y, [])| == (ScreenHeight - y) / GridSize
    decreases ScreenHeight - y
  {
    if y <= ScreenHeight - GridSize {
      FreeColumnCount(x, y + GridSize);
    }
  }

  lemma {:induction false} FreeFromCount(x: int)
    requires 0 <= x <= ScreenWidth && Aligned(x)
    ensures |FreeFrom(x, [])| == (ScreenWidth - x) / GridSize * GridHeight
    decreases ScreenWidth - x
  {
    if x <= ScreenWidth - GridSize {
      var col, rest := FreeColumn(x, 0, []), FreeFrom(x + GridSize, []);
      assert |FreeFrom(x, [])| == |col| + |rest|;
      FreeColumnCount(x, 0);
      FreeFromCount(x + GridSize);
      var n := (ScreenWidth - x) / GridSize;
      assert (ScreenWidth - (x + GridSize)) / GridSize == n - 1;
      assert |rest| == (n - 1) * GridHeight;
      assert |col| == GridHeight;
      assert n * GridHeight == (n - 1) * GridHeight + GridHeight;
    } else {
      AlignedGap(ScreenWidth - GridSize, x);
    }
  }

  /** With nothing excluded every one of the 32 x 24 cells is a candidate. */
  lemma FreeCellsCount()
    ensures |FreeCells([])| == CellCount
  {
    FreeFromCount(0);
  }

  /** The random choice can only fail when the exclusion list names at least
      as many entries as the board has cells. */
  lemma FreeCellsEmptyNeedsFullBoard(exclude: seq<Pos>)
    ensures FreeCells(exclude) == [] ==> |exclude| >= CellCount
  {
    if FreeCells(exclude) == [] {
      var all := FreeCells([]);
      FreeCellsCount();
      FreeCellsDistinct([]);
      FreeCellsEmpty(exclude);
      forall e | e in all ensures e in exclude {
        FreeCellsMembers([], e);
      }
      CoverIsLonger(all, exclude);
    }
  }

  class Apple {
    var position: Pos

    /** Places the apple anywhere but the screen center, where the snake starts. */
    constructor ()
      ensures OnGrid(position) && position != Center
    {
      new;
      FreeCellsMembers([Center], Pos(0, 0));
      var ok := RandomizePosition([Center]);
    }

    /** Moves the apple to an arbitrary free cell. When every cell is
        excluded the random choice fails and nothing changes. */
    method RandomizePosition(exclude: seq<Pos>) returns (ok: bool)
      modifies this
      ensures ok <==> FreeCells(exclude) != []
      ensures ok ==> position in FreeCells(exclude)
      ensures ok ==> OnGrid(position) && position !in exclude
      ensures !ok ==> position == old(position)
    {
      var free := FreeCells(exclude);
      if free == [] {
        return false;
      }
      assert free[0] in free;
      var p :| p in free;
      FreeCellsMembers(exclude, p);
      position := p;
      ok := true;
    }
  }
}
