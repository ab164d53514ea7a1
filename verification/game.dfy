/** One tick of the main loop (main.py:144-184) without drawing: the key
    events of the tick, then the move, the meal and the game-over test. */
module GameLoop {
  import opened Geometry
  import opened GridModel
  import opened FoodModel
  import opened SnakeModel

  /** The key presses the loop reacts to. */
  datatype Key = Left | Right | Up | Down | Space

  /** The move delta an arrow key asks for. */
  function KeyDelta(key: Key): Pos
    requires key != Space
  {
    match key
    case Left => LEFT
    case Right => RIGHT
    case Up => UP
    case Down => DOWN
  }

  /** The arrow-key tests of one event (main.py:155-162): an arrow key
      replaces the pending move unless it asks for the reverse of
      `last`. */
  function Steer(last: Pos, next: Pos, key: Key): (r: Pos)
    ensures key == Space ==> r == next
    ensures key != Space ==>
              r == if KeyDelta(key) == Reverse(last) then next else KeyDelta(key)
    ensures r == next || (IsDirection(r) && r != Reverse(last))
  {
    match key
    case Left => if last != RIGHT then LEFT else next
    case Right => if last != LEFT then RIGHT else next
    case Up => if last != DOWN then UP else next
    case Down => if last != UP then DOWN else next
    case Space => next
  }

  /** The variables the event loop of one tick updates: `game_over`,
      `last_move` and `next_move`. */
  datatype KeyState = KeyState(over: bool, last: Pos, next: Pos)

  /** One event (main.py:154-169): the arrow tests, then the restart on
      Space while the game is over, which resets both moves to DOWN. */
  function StepKey(s: KeyState, key: Key): KeyState {
    var next := Steer(s.last, s.next, key);
    if key == Space && s.over then KeyState(false, DOWN, DOWN)
    else KeyState(s.over, s.last, next)
  }

  /** The state after the events `keys`, in order, starting from `s`. */
  function ScanKeys(s: KeyState, keys: seq<Key>): KeyState {
    if keys == [] then s
    else StepKey(ScanKeys(s, keys[..|keys| - 1]), keys[|keys| - 1])
  }

  /** The events end the game over state exactly when it held and Space
      came; `last_move` then reads DOWN, otherwise it is left alone. */
  lemma {:induction false} ScanKeysRestart(s: KeyState, keys: seq<Key>)
    ensures ScanKeys(s, keys).over == (s.over && Space !in keys)
    ensures ScanKeys(s, keys).last == if s.over && Space in keys then DOWN else s.last
  {
    if keys != [] {
      var init := keys[..|keys| - 1];
      ScanKeysRestart(s, init);
      assert keys == init + [keys[|keys| - 1]];
    }
  }

  /** However many keys are pressed, the pending move stays a direction
      that does not reverse `last_move`. */
  lemma {:induction false} ScanKeysNeverReverses(s: KeyState, keys: seq<Key>)
    requires IsDirection(s.next) && s.next != Reverse(s.last)
    ensures IsDirection(ScanKeys(s, keys).next)
    ensures ScanKeys(s, keys).next != Reverse(ScanKeys(s, keys).last)
  {
    if keys != [] {
      ScanKeysNeverReverses(s, keys[..|keys| - 1]);
    }
  }

  /** Moving right, Left alone is ignored; Up then Left in the same tick
      turns up, because Left is still tested against the last move. */
  lemma QuickTurnIsNoReversal()
    ensures ScanKeys(KeyState(false, RIGHT, RIGHT), [Left]).next == RIGHT
    ensures ScanKeys(KeyState(false, RIGHT, RIGHT), [Up, Left]).next == UP
    ensures ScanKeys(KeyState(false, RIGHT, RIGHT), [Up, Left, Space]) == KeyState(false, RIGHT, UP)
  {
  }

  /** The game-over test (main.py:180-184): the head is off the board or
      on one of the other body cells. */
  predicate HitsWallOrSelf(body: seq<Pos>)
    requires |body| >= 1
  {
    !InBounds(body[0]) || body[0] in body[1..]
  }

  /** A move that passes the game-over test keeps a duplicate-free,
      on-board body so. */
  lemma MoveKeepsSimple(body: seq<Pos>, grow: bool, d: Pos)
    requires |body| >= 1 && Distinct(body) && AllInBounds(body)
    requires !HitsWallOrSelf(MoveBody(body, grow, d))
    ensures Distinct(MoveBody(body, grow, d)) && AllInBounds(MoveBody(body, grow, d))
  {
    var r := MoveBody(body, grow, d);
    MoveBodyShape(body, grow, d);
    var rest := r[1..];
    assert Distinct(rest) by {
      forall i, j | 0 <= i < j < |rest|
        ensures rest[i] != rest[j]
      {
        assert rest[i] == body[i] && rest[j] == body[j];
      }
    }
    assert r == [r[0]] + rest;
    DistinctConcat([r[0]], rest);
    forall i | 0 <= i < |r|
      ensures InBounds(r[i])
    {
      if i > 0 {
        assert r[i] == body[i - 1];
      }
    }
  }

  /** Because the tail is dropped before the test, moving onto the cell
      the tail leaves is not a self-collision: only the board edge can end
      the game there. */
  lemma TailChase(body: seq<Pos>, d: Pos)
    requires |body| >= 2 && Distinct(body)
    requires Add(body[0], d) == body[|body| - 1]
    ensures HitsWallOrSelf(MoveBody(body, false, d)) <==> !InBounds(body[|body| - 1])
  {
    var r := MoveBody(body, false, d);
    MoveBodyShape(body, false, d);
  }

  /** With growth pending the tail stays, so the same move is a
      self-collision. */
  lemma TailChaseGrowing(body: seq<Pos>, d: Pos)
    requires |body| >= 2
    requires Add(body[0], d) == body[|body| - 1]
    ensures HitsWallOrSelf(MoveBody(body, true, d))
  {
    var r := MoveBody(body, true, d);
    MoveBodyShape(body, true, d);
    assert r[1..][|body| - 1] == r[0];
  }

  /** The body of a freshly built snake (main.py:137-138, 165-166): head
      x in [3, 17] and y in [3, 6], one cell to its left. */
  predicate Spawned(body: seq<Pos>) {
    |body| == 2
    && 3 <= body[0].x <= NB_BLOCK_X - 3
    && 3 <= body[0].y <= NB_BLOCK_Y / 3
    && body[1] == Pos(body[0].x - 1, body[0].y)
  }

  /** A fresh snake is a legal, non-colliding position. */
  lemma SpawnFacts(body: seq<Pos>)
    requires Spawned(body)
    ensures Distinct(body) && AllInBounds(body) && Chain(body)
    ensures !HitsWallOrSelf(body)
  {
  }

  /** A fresh snake leaves room for the food: the corner cell (0, 0) is
      always free. */
  lemma SpawnLeavesRoom(board: seq<Pos>, body: seq<Pos>)
    requires IsBoard(board) && Spawned(body)
    ensures Without(board, body) != []
  {
    var corner := Pos(0, 0);
    assert corner in board && corner !in body;
    WithoutMembership(board, body, corner);
  }

  /** A new snake at a random head (main.py:137-138, 165-166): any x in
      [3, 17] and any y in [3, 6]. The row bound is a float division
      truncated to an integer, which equals integer division on these
      positive operands. */
  method SpawnSnake() returns (s: Snake)
    ensures fresh(s) && s.Valid() && !s.grow
    ensures Spawned(s.body)
  {
    var x :| 3 <= x <= NB_BLOCK_X - 3;
    var y :| 3 <= y <= NB_BLOCK_Y / 3;
    s := new Snake(x, y);
  }

  /** The variables of `main` that survive from one tick to the next. */
  class Game {
    const grid: Grid
    var snake: Snake
    const food: Food
    var gameOver: bool
    var lastMove: Pos
    var nextMove: Pos

    /** The game over flag is exactly the game-over test on the current
        body; the food is on the board and off the snake; the body is a
        chain of side-sharing cells and, while the game runs, on the board
        and free of repeats. */
    ghost predicate Valid()
      reads this, snake, food
    {
      snake.Valid()
      && IsBoard(grid.gridTuples)
      && IsDirection(nextMove)
      && InBounds(food.Cell()) && food.Cell() !in snake.body
      && Chain(snake.body)
      && gameOver == HitsWallOrSelf(snake.body)
      && (!gameOver ==> Distinct(snake.body) && AllInBounds(snake.body))
    }

    /** The set-up before the loop (main.py:123-142). */
    constructor ()
      ensures Valid() && !gameOver && nextMove == DOWN
      ensures Spawned(snake.body) && !snake.grow
    {
      grid := new Grid();
      var s := SpawnSnake();
      snake := s;
      food := new Food();
      gameOver := false;
      nextMove := DOWN;
      lastMove := DOWN;
      new;
      SpawnFacts(snake.body);
      SpawnLeavesRoom(grid.gridTuples, snake.body);
      var ok := food.GenerateFood(grid, snake.body);
    }

    /** Space while the game is over (main.py:163-169): a fresh snake,
        the move reset to DOWN and new food off the fresh snake. */
    method Restart()
      requires IsBoard(grid.gridTuples)
      modifies this, food
      ensures !gameOver && nextMove == DOWN && lastMove == DOWN
      ensures fresh(snake) && snake.Valid() && Spawned(snake.body) && !snake.grow
      ensures InBounds(food.Cell()) && food.Cell() !in snake.body
    {
      gameOver := false;
      snake := SpawnSnake();
      nextMove := DOWN;
      lastMove := DOWN;
      SpawnLeavesRoom(grid.gridTuples, snake.body);
      var ok := food.GenerateFood(grid, snake.body);
    }

    /** One event of the loop (main.py:154-169): `gameOver`, `lastMove`
        and `nextMove` change as `StepKey` says; only Space while the game
        is over replaces the snake, and then the food is off the new one. */
    method ReadEvent(key: Key)
      requires IsBoard(grid.gridTuples)
      modifies this, food
      ensures KeyState(gameOver, lastMove, nextMove)
              == StepKey(KeyState(old(gameOver), old(lastMove), old(nextMove)), key)
      ensures !(key == Space && old(gameOver)) ==>
                snake == old(snake) && food.Cell() == old(food.Cell())
      ensures key == Space && old(gameOver) ==>
                fresh(snake) && snake.Valid() && Spawned(snake.body) && !snake.grow
                && InBounds(food.Cell()) && food.Cell() !in snake.body
    {
      nextMove := Steer(lastMove, nextMove, key);
      if key == Space && gameOver {
        Restart();
      }
    }

    /** The `for event in pygame.event.get()` loop (main.py:148-169): it
        does to `gameOver`, `lastMove` and `nextMove` what `ScanKeys`
        does, and a restart builds a new snake with food off it. */
    method ReadEvents(events: seq<Key>) returns (ghost restarted: bool)
      requires IsBoard(grid.gridTuples)
      requires IsDirection(nextMove) && nextMove != Reverse(lastMove)
      modifies this, food
      ensures KeyState(gameOver, lastMove, nextMove)
              == ScanKeys(KeyState(old(gameOver), old(lastMove), old(nextMove)), events)
      ensures IsDirection(nextMove) && nextMove != Reverse(lastMove)
      ensures restarted <==> old(gameOver) && Space in events
      ensures gameOver == (old(gameOver) && !restarted)
      ensures lastMove == if restarted then DOWN else old(lastMove)
      ensures !restarted ==> snake == old(snake) && food.Cell() == old(food.Cell())
      ensures restarted ==> fresh(snake) && snake.Valid() && Spawned(snake.body) && !snake.grow
      ensures restarted ==> InBounds(food.Cell()) && food.Cell() !in snake.body
    {
      ghost var start := KeyState(gameOver, lastMove, nextMove);
      restarted := false;
      var i := 0;
      while i < |events|
        invariant 0 <= i <= |events|
        invariant KeyState(gameOver, lastMove, nextMove) == ScanKeys(start, events[..i])
        invariant restarted <==> old(gameOver) && Space in events[..i]
        invariant gameOver == (old(gameOver) && !restarted)
        invariant !restarted ==> snake == old(snake) && food.Cell() == old(food.Cell())
        invariant restarted ==> fresh(snake) && snake.Valid() && Spawned(snake.body) && !snake.grow
        invariant restarted ==> InBounds(food.Cell()) && food.Cell() !in snake.body
      {
        var key := events[i];
        assert events[..i + 1][..i] == events[..i];
        assert events[..i + 1] == events[..i] + [key];
        restarted := restarted || (key == Space && gameOver);
        ReadEvent(key);
        i := i + 1;
      }
      assert events[..i] == events;
      ScanKeysRestart(start, events);
      ScanKeysNeverReverses(start, events);
    }

    /** The event part of one tick (main.py:147-171): `last_move` takes
        the previous tick's move, the events are read, and `last_move`
        then takes the move to apply, which never reverses the previous
        tick's move, or DOWN if a restart came. */
    method HandleEvents(events: seq<Key>) returns (ghost restarted: bool)
      requires Valid()
      modifies this, food
      ensures Valid()
      ensures restarted <==> old(gameOver) && Space in events
      ensures gameOver == (old(gameOver) && !restarted)
      ensures lastMove == nextMove
      ensures nextMove == ScanKeys(KeyState(old(gameOver), old(nextMove), old(nextMove)), events).next
      ensures nextMove != Reverse(if restarted then DOWN else old(nextMove))
      ensures !restarted ==> snake == old(snake) && food.Cell() == old(food.Cell())
      ensures restarted ==> fresh(snake) && Spawned(snake.body) && !snake.grow
    {
      lastMove := nextMove;
      restarted := ReadEvents(events);
      lastMove := nextMove;
      if restarted {
        SpawnFacts(snake.body);
      } else {
        assert unchanged(snake);
      }
    }

    /** The rest of the tick (main.py:172-184). `crashed` is true where
        `generate_food` raises because no free cell is left; the program
        then stops, and so does the model. */
    method Advance() returns (crashed: bool)
      requires Valid()
      modifies this`gameOver, snake, food
      ensures !crashed ==> Valid()
      ensures old(gameOver) ==> !crashed && gameOver && unchanged(snake, food)
      ensures !old(gameOver) ==> snake.head == Add(old(snake.head), nextMove)
      ensures !old(gameOver) ==> snake.body == MoveBody(old(snake.body), old(snake.grow), nextMove)
      ensures !old(gameOver) ==> snake.grow == (old(food.Cell()) == snake.head)
      ensures !old(gameOver) && !snake.grow ==> food.Cell() == old(food.Cell())
      ensures crashed ==> !old(gameOver) && |snake.body| == NB_BLOCK_X * NB_BLOCK_Y
      ensures crashed ==> Distinct(snake.body) && AllInBounds(snake.body)
      ensures crashed ==> forall c :: InBounds(c) ==> c in snake.body
    {
      crashed := false;
      if !gameOver {
        ghost var before := snake.body;
        ghost var meal := food.Cell();
        MoveKeepsChain(before, snake.grow, nextMove);
        snake.Move(nextMove);
        snake.EatFood(food);
        MoveBodyTail(before, old(snake.grow), nextMove, meal);
        if snake.grow {
          MoveKeepsSimple(before, old(snake.grow), nextMove);
          var ok := food.GenerateFood(grid, snake.body);
          if !ok {
            FreeCellCount(grid.gridTuples, snake.body);
            FullBodyCoversBoard(grid.gridTuples, snake.body);
            return true;
          }
        }
        if !HitsWallOrSelf(snake.body) {
          MoveKeepsSimple(before, old(snake.grow), nextMove);
        }
      }
      if snake.head.x < 0 || snake.head.x >= NB_BLOCK_X || snake.head.y < 0 || snake.head.y >= NB_BLOCK_Y {
        gameOver := true;
      }
      if snake.head in snake.body[1..] {
        gameOver := true;
      }
    }

    /** One whole tick: events, then the move. While the game runs the
        body length never shrinks and grows by at most one; while the game
        is over and no restart comes, nothing changes; a restart leaves a
        fresh two-cell snake that has already made this tick's move and
        eaten or not like any other; a crash leaves a body covering the
        whole board. `meal` is the food cell the move is tested against. */
    method Tick(events: seq<Key>) returns (crashed: bool, ghost restarted: bool, ghost meal: Pos)
      requires Valid()
      modifies this, snake, food
      ensures !crashed ==> Valid()
      ensures restarted <==> old(gameOver) && Space in events
      ensures lastMove == nextMove && IsDirection(nextMove)
      ensures nextMove == ScanKeys(KeyState(old(gameOver), old(nextMove), old(nextMove)), events).next
      ensures nextMove != Reverse(if restarted then DOWN else old(nextMove))
      ensures old(gameOver) && !restarted ==>
                !crashed && gameOver && snake == old(snake) && unchanged(snake)
                && food.Cell() == old(food.Cell())
      ensures !old(gameOver) ==>
                snake == old(snake) && snake.head == Add(old(snake.head), nextMove)
                && snake.body == MoveBody(old(snake.body), old(snake.grow), nextMove)
      ensures !old(gameOver) ==> old(|snake.body|) <= |snake.body| <= old(|snake.body|) + 1
      ensures !restarted ==> meal == old(food.Cell())
      ensures restarted ==> !crashed && InBounds(meal) && meal != snake.body[1]
      ensures !old(gameOver) || restarted ==> snake.grow == (meal == snake.head)
      ensures !old(gameOver) || restarted ==> snake.grow || food.Cell() == meal
      ensures !old(gameOver) && !snake.grow ==> food.Cell() == old(food.Cell())
      ensures restarted ==>
                fresh(snake) && |snake.body| == 2
                && 3 <= snake.body[1].x <= NB_BLOCK_X - 3 && 3 <= snake.body[1].y <= NB_BLOCK_Y / 3
                && snake.head == Add(snake.body[1], nextMove)
      ensures crashed ==> |snake.body| == NB_BLOCK_X * NB_BLOCK_Y
      ensures crashed ==> Distinct(snake.body) && forall c :: InBounds(c) ==> c in snake.body
    {
      restarted := HandleEvents(events);
      meal := food.Cell();
      ghost var spawn := snake.body;
      crashed := Advance();
      if !old(gameOver) {
        MoveBodyShape(old(snake.body), old(snake.grow), nextMove);
      }
      if restarted {
        MoveBodyShape(spawn, false, nextMove);
      }
    }
  }
}
