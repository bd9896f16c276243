/** Board geometry: the screen and grid constants, pixel positions, the four
    directions and the toroidal step of one cell. */
module Grid {

  const ScreenWidth: int := 640
  const ScreenHeight: int := 480
  const GridSize: int := 20
  const GridWidth: int := ScreenWidth / GridSize
  const GridHeight: int := ScreenHeight / GridSize
  /** Number of cells on the board (32 x 24). */
  const CellCount: int := GridWidth * GridHeight

  /** A pixel position, the top-left corner of a cell when it is on the grid. */
  datatype Pos = Pos(x: int, y: int)

  const Center: Pos := Pos(ScreenWidth / 2, ScreenHeight / 2)

  datatype Direction = Up | Down | Left | Right {
    /** The unit vector (dx, dy) the source stores for this direction: one
        cell along exactly one axis. */
    function Vector(): (r: (int, int))
      ensures (r.0 == 0) != (r.1 == 0)
      ensures -1 <= r.0 <= 1 && -1 <= r.1 <= 1
    {
      match this
      case Up => (0, -1)
      case Down => (0, 1)
      case Left => (-1, 0)
      case Right => (1, 0)
    }
  }

  /** The direction that would reverse the snake onto its neck. */
  function Opposite(d: Direction): (r: Direction)
    ensures r != d
    ensures r.Vector().0 == -d.Vector().0 && r.Vector().1 == -d.Vector().1
  {
    match d
    case Up => Down
    case Down => Up
    case Left => Right
    case Right => Left
  }

  /** A coordinate that is a whole number of cells from the origin, that is,
      a multiple of `GridSize`. The cell size is written out as 20 here because
      the remainder by a literal is linear arithmetic for the verifier, while
      the remainder by a named constant is not. */
  predicate Aligned(a: int) {
    a % 20 == 0
  }

  /** The next cell boundary after an aligned coordinate is aligned. */
  lemma AlignedNext(a: int)
    requires Aligned(a)
    ensures Aligned(a + GridSize) && Aligned(a - GridSize)
  {
  }

  /** Two aligned coordinates are equal or at least one cell apart. */
  lemma AlignedGap(a: int, b: int)
    requires Aligned(a) && Aligned(b) && a <= b
    ensures b == a || b >= a + GridSize
  {
    assert a == 20 * (a / 20) && b == 20 * (b / 20);
  }

  /** A cell's corner: grid-aligned on both axes and inside the screen. */
  predicate OnGrid(p: Pos) {
    0 <= p.x <= ScreenWidth - GridSize && Aligned(p.x) &&
    0 <= p.y <= ScreenHeight - GridSize && Aligned(p.y)
  }

  /** Reference definition of one step on the torus: advance one cell in `d`
      and wrap with modular arithmetic. The cell size and the screen size are
      written out (20, 640, 480) to keep the arithmetic linear for the
      verifier; `WrapStepAtEdges` restates the result with the named
      constants. */
  function WrapStep(p: Pos, d: Direction): Pos {
    Pos((p.x + 20 * d.Vector().0) % 640, (p.y + 20 * d.Vector().1) % 480)
  }

  lemma WrapStepOnGrid(p: Pos, d: Direction)
    requires OnGrid(p)
    ensures OnGrid(WrapStep(p, d))
  {
    WrapStepAtEdges(p, d);
  }

  /** On the grid, the modular step is the same as adding one cell and
      resetting to the opposite edge when the screen is left. */
  lemma WrapStepAtEdges(p: Pos, d: Direction)
    requires OnGrid(p)
    ensures d == Right ==> WrapStep(p, d) == (if p.x + GridSize == ScreenWidth then Pos(0, p.y) else Pos(p.x + GridSize, p.y))
    ensures d == Left ==> WrapStep(p, d) == (if p.x - GridSize < 0 then Pos(ScreenWidth - GridSize, p.y) else Pos(p.x - GridSize, p.y))
    ensures d == Down ==> WrapStep(p, d) == (if p.y + GridSize == ScreenHeight then Pos(p.x, 0) else Pos(p.x, p.y + GridSize))
    ensures d == Up ==> WrapStep(p, d) == (if p.y - GridSize < 0 then Pos(p.x, ScreenHeight - GridSize) else Pos(p.x, p.y - GridSize))
  {
    assert ScreenWidth == 640 && ScreenHeight == 480 && GridSize == 20;
    match d
    case Right =>
      assert d.Vector() == (1, 0);
      assert (p.y + 0) % 480 == p.y;
      if p.x + 20 == 640 {
        assert (p.x + 20) % 640 == 0;
      } else {
        assert (p.x + 20) % 640 == p.x + 20;
      }
    case Left =>
      assert d.Vector() == (-1, 0);
      assert (p.y + 0) % 480 == p.y;
      if p.x - 20 < 0 {
        assert (p.x - 20) % 640 == 620;
      } else {
        assert (p.x - 20) % 640 == p.x - 20;
      }
    case Down =>
      assert d.Vector() == (0, 1);
      assert (p.x + 0) % 640 == p.x;
      if p.y + 20 == 480 {
        assert (p.y + 20) % 480 == 0;
      } else {
        assert (p.y + 20) % 480 == p.y + 20;
      }
    case Up =>
      assert d.Vector() == (0, -1);
      assert (p.x + 0) % 640 == p.x;
      if p.y - 20 < 0 {
        assert (p.y - 20) % 480 == 460;
      } else {
        assert (p.y - 20) % 480 == p.y - 20;
      }
  }

  /** A step always lands on a different cell. */
  lemma WrapStepMoves(p: Pos, d: Direction)
    requires OnGrid(p)
    ensures WrapStep(p, d) != p
  {
    WrapStepAtEdges(p, d);
  }

  /** Stepping back in the opposite direction returns to the start. */
  lemma WrapStepUndo(p: Pos, d: Direction)
    requires OnGrid(p)
    ensures WrapStep(WrapStep(p, d), Opposite(d)) == p
  {
    WrapStepAtEdges(p, d);
    WrapStepOnGrid(p, d);
    WrapStepAtEdges(WrapStep(p, d), Opposite(d));
  }
}
