/** The game loop without drawing: creating the snake and the apple, and one
    tick of key handling, direction update, move, crash check and eat check. */
module Game {
  import opened Wrappers
  import opened Grid
  import opened Sequences
  import opened Apples
  import opened Snakes
  import opened Controls

  /** What holds between ticks: a well-formed snake with nothing pending and
      the crash flag down, and an apple on the grid that is off the snake except
      right after a crash, when the reset snake may sit on it at the center. */
  ghost predicate Between(snake: Snake, apple: Apple)
    reads snake, apple
  {
    snake.Valid() && !snake.isCrash && snake.nextDirection == None &&
    OnGrid(apple.position) &&
    (apple.position in snake.positions ==> snake.positions == [Center] && snake.length == DefaultLength)
  }

  /** The state before the first tick. */
  method Start() returns (snake: Snake, apple: Apple)
    ensures fresh(snake) && fresh(apple)
    ensures Between(snake, apple)
    ensures snake.positions == [Center] && snake.direction == Right && snake.length == DefaultLength
    ensures apple.position !in snake.positions
  {
    snake := new Snake();
    apple := new Apple();
  }

  /** One tick. `ok` is false only when the apple was eaten and no free cell
      was left for it, the case in which the random choice fails. */
  method Tick(snake: Snake, apple: Apple, keys: seq<Key>) returns (ok: bool)
    requires Between(snake, apple)
    modifies snake, apple
    ensures snake.Valid() && !snake.isCrash && snake.nextDirection == None
    ensures ok ==> Between(snake, apple)
    ensures !ok ==> |snake.positions| >= CellCount && apple.position == old(apple.position)
    // the crash: the snake is reset, the apple stays, nothing is eaten
    ensures var h := WrapStep(old(snake.positions)[0], Heading(keys, old(snake.direction)));
      h in old(snake.positions) ==>
        ok && snake.positions == [Center] && snake.length == DefaultLength && snake.last == None &&
        apple.position == old(apple.position)
    // a move without a crash: head pushed, tail dropped once the length is reached
    ensures var h := WrapStep(old(snake.positions)[0], Heading(keys, old(snake.direction)));
      h !in old(snake.positions) ==>
        snake.direction == Heading(keys, old(snake.direction)) &&
        snake.direction != Opposite(old(snake.direction)) &&
        snake.positions == Advance(old(snake.positions), old(snake.length), h) &&
        snake.last == Some(old(snake.positions)[|old(snake.positions)| - 1])
    // eating: the length grows by one and the apple moves off the snake
    ensures var h := WrapStep(old(snake.positions)[0], Heading(keys, old(snake.direction)));
      h !in old(snake.positions) && h == old(apple.position) ==>
        snake.length == old(snake.length) + 1 &&
        (ok <==> FreeCells(snake.positions) != []) &&
        (ok ==> apple.position !in snake.positions) &&
        (!ok ==> |snake.positions| >= CellCount)
    // no apple: length and apple unchanged
    ensures var h := WrapStep(old(snake.positions)[0], Heading(keys, old(snake.direction)));
      h !in old(snake.positions) && h != old(apple.position) ==>
        ok && snake.length == old(snake.length) && apple.position == old(apple.position)
  {
    ghost var body, len, dir, food := snake.positions, snake.length, snake.direction, apple.position;
    ghost var heading := Heading(keys, dir);
    ghost var h := WrapStep(body[0], heading);

    HandleKeys(snake, keys);
    snake.UpdateDirection();
    assert snake.direction == heading;
    snake.Move();
    ghost var moved, vacated, turned := snake.positions, snake.last, snake.direction;
    if !snake.isCrash {
      assert moved == Advance(body, len, h) && snake.length == len;
      if food in body {
        assert body == [Center] && len == 1;
        assert moved == [h];
      } else {
        AdvanceAvoids(body, len, h, food);
      }
    }

    ok := Resolve(snake, apple);
    assert !ok ==> apple.position == food;
    assert snake.positions == moved && snake.last == vacated && snake.direction == turned;
    if h in body {
      assert ok && moved == [Center] && snake.length == DefaultLength && vacated == None;
      assert apple.position == food;
    } else {
      assert moved == Advance(body, len, h) && vacated == Some(body[|body| - 1]) && turned == heading;
      assert moved[0] == h;
      if h == food {
        assert snake.length == len + 1;
      } else {
        assert ok && snake.length == len && apple.position == food;
      }
    }
  }

  /** The checks after the move: a crash lowers the crash flag and skips the
      rest of the tick; otherwise a head on the apple eats it. */
  method Resolve(snake: Snake, apple: Apple) returns (ok: bool)
    requires snake.Valid() && snake.nextDirection == None && OnGrid(apple.position)
    requires snake.isCrash ==> snake.positions == [Center] && snake.length == DefaultLength
    requires !snake.isCrash ==> apple.position !in snake.positions[1..]
    modifies snake`isCrash, snake`length, apple
    ensures snake.Valid() && !snake.isCrash
    ensures ok ==> Between(snake, apple)
    ensures !ok ==> |snake.positions| >= CellCount && apple.position == old(apple.position)
    ensures old(snake.isCrash) ==>
      ok && snake.length == old(snake.length) && apple.position == old(apple.position)
    ensures !old(snake.isCrash) && snake.positions[0] == old(apple.position) ==>
      snake.length == old(snake.length) + 1 &&
      (ok <==> FreeCells(snake.positions) != []) &&
      (ok ==> apple.position !in snake.positions)
    ensures !old(snake.isCrash) && snake.positions[0] != old(apple.position) ==>
      ok && snake.length == old(snake.length) && apple.position == old(apple.position)
  {
    if snake.isCrash {
      snake.IsCrashToggle();
      return true;
    }
    ok := true;
    if snake.Head() == apple.position {
      snake.Increase();
      ok := apple.RandomizePosition(snake.positions);
      FreeCellsEmptyNeedsFullBoard(snake.positions);
    }
  }

  /** The headings and steps of the opening below, computed apart from the
      game state. */
  lemma OpeningPath()
    ensures Heading([KeyRight], Right) == Right && WrapStep(Center, Right) == Pos(340, 240)
    ensures Heading([KeyDown], Right) == Down && WrapStep(Pos(340, 240), Down) == Pos(340, 260)
    ensures Heading([KeyDown], Down) == Down && WrapStep(Pos(340, 260), Down) == Pos(340, 280)
    ensures CellCount == 768
  {
    assert GridWidth == 32 && GridHeight == 24;
  }

  /** From the start, one tick with Right pressed and two with Down pressed
      take the head one cell right and two cells down, without a crash. */
  method OpeningMoves() returns (head: Pos, ok: bool)
    ensures ok && head == Pos(Center.x + GridSize, Center.y + 2 * GridSize)
  {
    OpeningPath();
    var snake, apple := Start();
    ok := Tick(snake, apple, [KeyRight]);
    assert snake.positions == [Pos(340, 240)];
    assert ok;

    var ok2 := Tick(snake, apple, [KeyDown]);
    assert snake.positions[0] == Pos(340, 260) && |snake.positions| <= 2;
    assert Pos(340, 280) !in snake.positions;
    assert ok2;

    assert snake.direction == Down;
    var ok3 := Tick(snake, apple, [KeyDown]);
    assert |snake.positions| <= 3;
    assert ok3;
    assert snake.positions[0] == Pos(340, 280);
    head := snake.Head();
    ok := ok && ok2 && ok3;
  }

  /** A four-cell snake whose head steps onto its own tail crashes and is
      reset, although the tail would have moved away in the same step. */
  method TailCollision() returns (body: seq<Pos>, crashed: bool)
    ensures crashed && body == [Center]
  {
    var snake := new Snake();
    snake.positions := [Pos(20, 0), Pos(0, 0), Pos(0, 20), Pos(20, 20)];
    snake.length := 4;
    snake.direction := Down;
    snake.Move();
    body, crashed := snake.positions, snake.isCrash;
  }
}
