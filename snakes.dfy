/** The snake: an ordered body of cells (head first), a target length, the
    current and the pending direction, the cell vacated by the last move, and
    the crash flag the game loop reads. */
module Snakes {
  import opened Wrappers
  import opened Grid
  import opened Sequences

  const DefaultLength: int := 1

  /** The body after the head moves onto the cell `h`, which is not part of
      it: `h` in front, then the old body, whose last cell is dropped once the
      body has reached the target length. */
  function Advance(body: seq<Pos>, length: int, h: Pos): seq<Pos>
    requires 1 <= |body| <= length
  {
    if |body| + 1 > length then [h] + body[..|body| - 1] else [h] + body
  }

  /** The new head comes first, the old body follows in order, and the size
      is the old size plus one, capped at the target length. */
  lemma AdvanceShape(body: seq<Pos>, length: int, h: Pos)
    requires 1 <= |body| <= length
    ensures var r := Advance(body, length, h);
      r[0] == h &&
      r[1..] == (if |body| == length then body[..|body| - 1] else body) &&
      |r| == (if |body| < length then |body| + 1 else length)
  {
  }

  /** A move onto a cell outside the body keeps the body duplicate-free and
      on the grid. */
  lemma AdvanceValid(body: seq<Pos>, length: int, h: Pos)
    requires 1 <= |body| <= length && h !in body && OnGrid(h)
    requires Distinct(body) && forall i :: 0 <= i < |body| ==> OnGrid(body[i])
    ensures var r := Advance(body, length, h);
      Distinct(r) && 1 <= |r| <= length && forall i :: 0 <= i < |r| ==> OnGrid(r[i])
  {
    var r := Advance(body, length, h);
    if |body| + 1 > length {
      DistinctDropLast(body);
      assert body[..|body| - 1] == r[1..];
      assert h !in body[..|body| - 1];
    } else {
      assert body == r[1..];
    }
    forall i | 0 <= i < |r| ensures OnGrid(r[i]) {
      if i > 0 {
        assert r[i] == body[i - 1];
      }
    }
  }

  /** Behind the new head there is only what was in the old body. */
  lemma AdvanceAvoids(body: seq<Pos>, length: int, h: Pos, e: Pos)
    requires 1 <= |body| <= length && e !in body
    ensures e !in Advance(body, length, h)[1..]
  {
    var r := Advance(body, length, h);
    if |body| + 1 > length {
      assert r[1..] == body[..|body| - 1];
      assert e !in body[..|body| - 1];
    } else {
      assert r[1..] == body;
    }
  }

  class Snake {
    var positions: seq<Pos>
    var length: int
    var direction: Direction
    var nextDirection: Option<Direction>
    var last: Option<Pos>
    var isCrash: bool

    /** The body is non-empty, no longer than the target length, lies on the
        grid and never covers a cell twice. */
    ghost predicate Valid()
      reads this
    {
      1 <= |positions| <= length &&
      (forall i :: 0 <= i < |positions| ==> OnGrid(positions[i])) &&
      Distinct(positions)
    }

    constructor ()
      ensures Valid()
      ensures positions == [Center] && length == DefaultLength && direction == Right
      ensures nextDirection == None && last == None && !isCrash
    {
      direction := Right;
      nextDirection := None;
      last := None;
      length := DefaultLength;
      positions := [Center];
      isCrash := false;
    }

    /** Applies the pending direction, if there is one, and clears it. */
    method UpdateDirection()
      modifies this`direction, this`nextDirection
      ensures nextDirection == None
      ensures direction == (if old(nextDirection).Some? then old(nextDirection).value else old(direction))
    {
      if nextDirection.Some? {
        direction := nextDirection.value;
        nextDirection := None;
      }
    }

    /** The head, the first cell of the body. */
    function Head(): (r: Pos)
      reads this
      requires Valid()
      ensures OnGrid(r) && r in positions
      ensures r == positions[0]
    {
      positions[0]
    }

    /** Advances the head one cell in the current direction, wrapping at the
        screen edges. A head landing on any body cell, the tail included, is a
        crash and resets the snake; otherwise the head is pushed and the tail is
        dropped when the body has reached the target length. */
    method Move()
      requires Valid()
      modifies this`positions, this`last, this`length, this`direction, this`isCrash
      ensures Valid()
      ensures var h := WrapStep(old(positions)[0], old(direction));
        h in old(positions) ==>
          positions == [Center] && length == DefaultLength && last == None &&
          isCrash == !old(isCrash)
      ensures var h := WrapStep(old(positions)[0], old(direction));
        h !in old(positions) ==>
          positions == Advance(old(positions), old(length), h) &&
          last == Some(old(positions)[|old(positions)| - 1]) &&
          length == old(length) && direction == old(direction) && isCrash == old(isCrash)
    {
      var head := Head();
      var dx, dy := head.x, head.y;
      WrapStepAtEdges(head, direction);

      if direction == Right {
        dx := dx + GridSize;
        if dx == ScreenWidth {
          dx := 0;
        }
      } else if direction == Left {
        dx := dx - GridSize;
        if dx < 0 {
          dx := ScreenWidth - GridSize;
        }
      } else if direction == Down {
        dy := dy + GridSize;
        if dy == ScreenHeight {
          dy := 0;
        }
      } else if direction == Up {
        dy := dy - GridSize;
        if dy < 0 {
          dy := ScreenHeight - GridSize;
        }
      }
      var newHead := Pos(dx, dy);
      assert newHead == WrapStep(head, direction);

      if newHead in positions {
        Reset();
        return;
      }

      WrapStepOnGrid(head, direction);
      AdvanceValid(positions, length, newHead);
      ghost var advanced := Advance(positions, length, newHead);
      positions := [newHead] + positions;
      last := Some(positions[|positions| - 1]);

      if |positions| > length {
        positions := positions[..|positions| - 1];
      }
      assert positions == advanced;
    }

    /** Raises the target length by one; the body grows on later moves. */
    method Increase()
      requires Valid()
      modifies this`length
      ensures Valid()
      ensures length == old(length) + 1
    {
      length := length + 1;
    }

    /** Back to a single cell at the screen center with target length one,
        facing an arbitrary one of the four directions, and flips the crash
        flag. */
    method Reset()
      modifies this`positions, this`last, this`length, this`direction, this`isCrash
      ensures Valid()
      ensures positions == [Center] && length == DefaultLength && last == None
      ensures isCrash == !old(isCrash)
    {
      length := DefaultLength;
      positions := [Center];
      var choices := [Right, Left, Up, Down];
      assert Right in choices;
      var d :| d in choices;
      direction := d;
      last := None;

      IsCrashToggle();
    }

    method IsCrashToggle()
      modifies this`isCrash
      ensures isCrash == !old(isCrash)
    {
      isCrash := !isCrash;
    }
  }
}
