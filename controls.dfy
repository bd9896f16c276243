/** Keyboard control: each arrow key requests a direction, and a request is
    accepted only when it does not reverse the snake's current direction. */
module Controls {
  import opened Wrappers
  import opened Grid
  import Snakes

  /** A key press; every key other than the four arrows is `OtherKey`. */
  datatype Key = KeyUp | KeyDown | KeyLeft | KeyRight | OtherKey

  /** The direction an arrow key names. */
  function Requested(k: Key): (r: Option<Direction>)
    ensures r.Some? <==> k != OtherKey
  {
    match k
    case KeyUp => Some(Up)
    case KeyDown => Some(Down)
    case KeyLeft => Some(Left)
    case KeyRight => Some(Right)
    case OtherKey => None
  }

  /** The direction one key press sets as pending while heading `dir`, or
      None when the press is ignored. */
  function Gate(k: Key, dir: Direction): (r: Option<Direction>)
    ensures r.Some? <==> Requested(k).Some? && Requested(k).value != Opposite(dir)
    ensures r.Some? ==> r == Requested(k)
    ensures r != Some(Opposite(dir))
  {
    if k == KeyUp && dir != Down then Some(Up)
    else if k == KeyDown && dir != Up then Some(Down)
    else if k == KeyLeft && dir != Right then Some(Left)
    else if k == KeyRight && dir != Left then Some(Right)
    else None
  }

  /** The pending direction after the presses `keys`, in order, starting from
      `next`; an accepted press overwrites the one before it. */
  function AfterKeys(keys: seq<Key>, dir: Direction, next: Option<Direction>): (r: Option<Direction>)
    ensures next != Some(Opposite(dir)) ==> r != Some(Opposite(dir))
  {
    if keys == [] then next
    else
      var before := AfterKeys(keys[..|keys| - 1], dir, next);
      var g := Gate(keys[|keys| - 1], dir);
      if g.Some? then g else before
  }

  /** The pending direction comes from the start or from an accepted press. */
  lemma {:induction false} AfterKeysSource(keys: seq<Key>, dir: Direction, next: Option<Direction>)
    ensures var r := AfterKeys(keys, dir, next);
      r == next || exists i :: 0 <= i < |keys| && Gate(keys[i], dir) == r
  {
    if keys != [] {
      var init := keys[..|keys| - 1];
      AfterKeysSource(init, dir, next);
      var r := AfterKeys(init, dir, next);
      if r != next && Gate(keys[|keys| - 1], dir).None? {
        var i :| 0 <= i < |init| && Gate(init[i], dir) == r;
        assert keys[i] == init[i];
      }
    }
  }

  /** Only the last accepted press counts. */
  lemma {:induction false} AfterKeysLastAccepted(keys: seq<Key>, dir: Direction, next: Option<Direction>, i: nat)
    requires i < |keys| && Gate(keys[i], dir).Some?
    requires forall j :: i < j < |keys| ==> Gate(keys[j], dir).None?
    ensures AfterKeys(keys, dir, next) == Gate(keys[i], dir)
  {
    if i < |keys| - 1 {
      var init := keys[..|keys| - 1];
      assert init[i] == keys[i];
      forall j | i < j < |init| ensures Gate(init[j], dir).None? {
        assert init[j] == keys[j];
      }
      AfterKeysLastAccepted(init, dir, next, i);
    }
  }

  /** Presses that are all ignored leave the pending direction as it was. */
  lemma {:induction false} AfterKeysNoneAccepted(keys: seq<Key>, dir: Direction, next: Option<Direction>)
    requires forall j :: 0 <= j < |keys| ==> Gate(keys[j], dir).None?
    ensures AfterKeys(keys, dir, next) == next
  {
    if keys != [] {
      var init := keys[..|keys| - 1];
      forall j | 0 <= j < |init| ensures Gate(init[j], dir).None? {
        assert init[j] == keys[j];
      }
      AfterKeysNoneAccepted(init, dir, next);
    }
  }

  /** The direction the snake moves in after the presses `keys` are applied
      by the next direction update, starting with nothing pending. */
  function Heading(keys: seq<Key>, dir: Direction): (r: Direction)
    ensures r != Opposite(dir)
  {
    var n := AfterKeys(keys, dir, None);
    if n.Some? then n.value else dir
  }

  /** The heading is the current direction or one an accepted press asked for. */
  lemma HeadingSource(keys: seq<Key>, dir: Direction)
    ensures var r := Heading(keys, dir);
      r == dir || exists i :: 0 <= i < |keys| && Gate(keys[i], dir) == Some(r)
  {
    AfterKeysSource(keys, dir, None);
  }

  /** Processes the key presses of one tick, in order, against the snake's
      current direction. */
  method HandleKeys(snake: Snakes.Snake, keys: seq<Key>)
    modifies snake`nextDirection
    ensures snake.nextDirection == AfterKeys(keys, snake.direction, old(snake.nextDirection))
  {
    for i := 0 to |keys|
      invariant snake.nextDirection == AfterKeys(keys[..i], snake.direction, old(snake.nextDirection))
    {
      assert keys[..i + 1][..i] == keys[..i];
      var accepted := Gate(keys[i], snake.direction);
      if accepted.Some? {
        snake.nextDirection := accepted;
      }
    }
    assert keys[..|keys|] == keys;
  }
}
