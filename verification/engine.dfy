/** The server-side snake game: a 20 x 30 board, the snake as a list of cells
    (head first), one food cell, the score and a game-over flag. */
module Engine {
  import opened Grid
  import opened Protocol
  import Hamiltonian

  /** The autopilot's mode, shown on the client as `ai_status`. */
  datatype AiStatus = Initializing | TakingShortcut | MindmasterCycle | Panic {
    function Label(): string {
      match this
      case Initializing => "Initializing..."
      case TakingShortcut => "Taking Shortcut!"
      case MindmasterCycle => "Mindmaster Cycle"
      case Panic => "PANIC"
    }
  }

  /** The collision test of `step`: the new head lies on a body cell other than
      the current tail, or outside the board. */
  predicate Collides(snake: seq<Cell>, head: Cell)
    requires |snake| >= 1
  {
    (head in snake && head != snake[|snake| - 1]) || !InGrid(head)
  }

  /** The game invariant: a non-empty snake of distinct in-grid cells, and the
      food on a free in-grid cell. */
  predicate BoardInvariant(snake: seq<Cell>, food: Cell) {
    |snake| >= 1 && Distinct(snake) &&
    (forall c :: c in snake ==> InGrid(c)) &&
    InGrid(food) && food !in snake
  }

  /** A snake that covers fewer cells than the board leaves a free cell, so the
      food spawner's search ends. */
  lemma FreeCellExists(snake: seq<Cell>)
    requires |snake| < Width * Height
    ensures exists c :: InGrid(c) && c !in snake
  {
    var board := seq(Width * Height, i requires 0 <= i < Width * Height => Hamiltonian.CycleCell(Width, Height, i));
    Hamiltonian.CycleIsPermutation(Width, Height);
    Pigeonhole(snake, board);
    var c :| c in board && c !in snake;
    assert InGrid(c);
  }

  /** An ordinary move keeps the invariant, including the move into the cell
      the tail is vacating. */
  lemma MoveKeepsInvariant(snake: seq<Cell>, food: Cell, head: Cell)
    requires BoardInvariant(snake, food) && !Collides(snake, head) && head != food
    ensures BoardInvariant([head] + snake[..|snake| - 1], food)
  {
    var body := snake[..|snake| - 1];
    forall j | 0 <= j < |body|
      ensures body[j] != head
    {
      assert body[j] == snake[j];
    }
    var next := [head] + body;
    forall i, j | 0 <= i < j < |next|
      ensures next[i] != next[j]
    {
      if i > 0 {
        assert next[i] == snake[i - 1] && next[j] == snake[j - 1];
      } else {
        assert next[j] in body;
      }
    }
  }

  /** Eating keeps the old body intact in front of which the food cell becomes
      the new head; the longer snake is still duplicate-free and in the grid. */
  lemma GrowKeepsDistinct(snake: seq<Cell>, food: Cell)
    requires BoardInvariant(snake, food)
    ensures !Collides(snake, food)
    ensures Distinct([food] + snake) && forall c :: c in [food] + snake ==> InGrid(c)
  {
    var next := [food] + snake;
    forall i, j | 0 <= i < j < |next|
      ensures next[i] != next[j]
    {
      if i > 0 {
        assert next[i] == snake[i - 1] && next[j] == snake[j - 1];
      } else {
        assert next[j] in snake;
      }
    }
  }

  class SnakeGame {
    var snake: seq<Cell>
    var direction: Direction
    var food: Cell
    var score: nat
    var gameOver: bool
    var aiStatus: AiStatus

    ghost predicate Valid()
      reads this
    {
      BoardInvariant(snake, food)
    }

    constructor ()
      ensures Valid()
      ensures snake == [Cell(Width / 2, Height / 2)] && direction == Up
      ensures score == 0 && !gameOver && aiStatus == Initializing
    {
      new;
      Reset();
    }

    /** A fresh game: a one-cell snake in the middle of the board heading up,
        food on some other cell, score 0. */
    method Reset()
      modifies this
      ensures Valid()
      ensures snake == [Cell(Width / 2, Height / 2)] && direction == Up
      ensures score == 0 && !gameOver && aiStatus == Initializing
    {
      snake := [Cell(Width / 2, Height / 2)];
      direction := Up;
      assert InGrid(Cell(0, 0)) && Cell(0, 0) !in snake;
      food := SpawnFood();
      score := 0;
      gameOver := false;
      aiStatus := Initializing;
    }

    /** Picks a free in-grid cell. The source draws random cells until one is
        off the snake; here the draw is a nondeterministic choice, and a free
        cell must exist for the draw to end. */
    method SpawnFood() returns (pos: Cell)
      requires exists c :: InGrid(c) && c !in snake
      ensures InGrid(pos) && pos !in snake
    {
      pos :| InGrid(pos) && pos !in snake;
    }

    /** One tick. Nothing happens once the game is over; a collision ends the
        game and changes nothing else; otherwise the snake moves one cell,
        growing by one and scoring when the new head is the food. Eating needs
        a free cell left for the next food. */
    method Step(nextMove: Direction)
      requires Valid()
      requires gameOver || Collides(snake, Neighbour(snake[0], nextMove)) ||
               Neighbour(snake[0], nextMove) != food || |snake| + 1 < Width * Height
      modifies this
      ensures Valid()
      ensures direction == old(direction) && aiStatus == old(aiStatus)
      ensures old(gameOver) ==>
                gameOver && snake == old(snake) && food == old(food) && score == old(score)
      ensures !old(gameOver) && Collides(old(snake), Neighbour(old(snake)[0], nextMove)) ==>
                gameOver && snake == old(snake) && food == old(food) && score == old(score)
      ensures !old(gameOver) && !Collides(old(snake), Neighbour(old(snake)[0], nextMove)) &&
              Neighbour(old(snake)[0], nextMove) != old(food) ==>
                !gameOver && score == old(score) && food == old(food) &&
                snake == [Neighbour(old(snake)[0], nextMove)] + old(snake)[..|old(snake)| - 1]
      ensures !old(gameOver) && !Collides(old(snake), Neighbour(old(snake)[0], nextMove)) &&
              Neighbour(old(snake)[0], nextMove) == old(food) ==>
                !gameOver && score == old(score) + 1 &&
                snake == [old(food)] + old(snake)
    {
      if gameOver {
        return;
      }
      var head := snake[0];
      var newHead := Cell(head.x + nextMove.DX(), head.y + nextMove.DY());
      assert newHead == Neighbour(old(snake)[0], nextMove);
      if (newHead in snake && newHead != snake[|snake| - 1]) ||
         !(0 <= newHead.x < Width) || !(0 <= newHead.y < Height)
      {
        gameOver := true;
        return;
      }
      if newHead == food {
        GrowKeepsDistinct(snake, food);
      } else {
        MoveKeepsInvariant(snake, food, newHead);
      }
      snake := [newHead] + snake;
      if newHead == food {
        score := score + 1;
        FreeCellExists(snake);
        food := SpawnFood();
      } else {
        snake := snake[..|snake| - 1];
      }
    }

    /** The JSON state sent to the client. `plannedPath` is the autopilot's
        `current_path`, which lives outside the game object. */
    function GetState(plannedPath: seq<Cell>): (s: Snapshot)
      reads this
      ensures Valid() ==> Protocol.WellFormed(s)
      ensures s.snake == snake && s.food == Some(food) && s.score == score
      ensures s.gameOver == gameOver && s.aiStatus == aiStatus.Label()
      ensures s.gridSize == (Width, Height) && s.plannedPath == plannedPath
      ensures !s.gameWon && s.hype.None? && s.tiktokEffect.None?
    {
      Snapshot(snake, Some(food), score, gameOver, false, (Width, Height),
               aiStatus.Label(), plannedPath, None, None)
    }
  }
}
