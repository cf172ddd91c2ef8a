/** The autopilot: it follows the Hamiltonian cycle and takes a shortcut off it
    only when the shortcut brings the head closer to the food along the cycle
    and leaves a safety margin before the tail. */
module Autopilot {
  import opened Grid
  import opened Protocol
  import opened Engine
  import opened Hamiltonian

  /** Extra cells a shortcut must leave between the new head and the tail. */
  const Margin: int := 3

  /** Forward distance from position `a` to position `b` on a cycle of length `len`. */
  function DistCycle(a: int, b: int, len: int): (d: int)
    ensures 0 <= a < len && 0 <= b < len ==> 0 <= d < len && (d == 0 <==> a == b)
  {
    if b >= a then b - a else b - a + len
  }

  /** Walking `DistCycle(a, b, len)` steps forward from `a`, wrapping at `len`,
      reaches `b`. */
  lemma DistCycleReaches(a: int, b: int, len: int)
    requires 0 <= a < len && 0 <= b < len
    ensures (a + DistCycle(a, b, len)) % len == b
  {
    if b < a {
      assert a + DistCycle(a, b, len) == b + len;
      assert (b + len) % len == b by {
        assert b + len == 1 * len + b;
      }
    }
  }

  /** What the move choice reads: the snake (head first), the food, the cycle's
      cell-to-position map and the cycle's length. */
  datatype Situation = Situation(snake: seq<Cell>, food: Cell, cycle: map<Cell, nat>, cycleLen: nat)

  /** Every lookup the choice makes succeeds: head, tail, food and every
      in-grid cell have a cycle position, and the cycle is not empty. */
  ghost predicate Covered(s: Situation) {
    |s.snake| >= 1 && s.cycleLen > 0 &&
    s.snake[0] in s.cycle && s.snake[|s.snake| - 1] in s.cycle && s.food in s.cycle &&
    forall c :: InGrid(c) ==> c in s.cycle
  }

  function Target(s: Situation, d: Direction): Cell
    requires |s.snake| >= 1
  {
    Neighbour(s.snake[0], d)
  }

  /** A physically valid move: inside the board and off every body cell except
      the tail (`n_pos not in snake[:-1]`). */
  predicate Open(s: Situation, d: Direction)
    requires |s.snake| >= 1
  {
    InGrid(Target(s, d)) && Target(s, d) !in s.snake[..|s.snake| - 1]
  }

  function HeadToFood(s: Situation): int
    requires Covered(s)
  {
    DistCycle(s.cycle[s.snake[0]], s.cycle[s.food], s.cycleLen)
  }

  /** Cycle distance from the cell reached by `d` to the food. */
  function FoodDist(s: Situation, d: Direction): int
    requires Covered(s) && Open(s, d)
  {
    DistCycle(s.cycle[Target(s, d)], s.cycle[s.food], s.cycleLen)
  }

  /** The snake's length after the move: one more when it eats. */
  function FutureLen(s: Situation, d: Direction): int
    requires |s.snake| >= 1
  {
    |s.snake| + if Target(s, d) == s.food then 1 else 0
  }

  /** The tail is far enough ahead along the cycle: more than the future length
      plus the margin. */
  predicate Safe(s: Situation, d: Direction)
    requires Covered(s)
  {
    Open(s, d) &&
    DistCycle(s.cycle[Target(s, d)], s.cycle[s.snake[|s.snake| - 1]], s.cycleLen) > FutureLen(s, d) + Margin
  }

  /** A safe move strictly closer to the food along the cycle than the head is. */
  predicate Improves(s: Situation, d: Direction)
    requires Covered(s)
  {
    Safe(s, d) && FoodDist(s, d) < HeadToFood(s)
  }

  /** `m` wins against `d`: strictly closer to the food, or as close and earlier
      in enum order. */
  predicate NoWorseThan(s: Situation, m: Direction, d: Direction)
    requires Covered(s) && Open(s, m) && Open(s, d)
  {
    FoodDist(s, m) < FoodDist(s, d) || (FoodDist(s, m) == FoodDist(s, d) && Rank(m) <= Rank(d))
  }

  /** A valid move onto the head's successor on the cycle. */
  predicate FollowsCycle(s: Situation, d: Direction)
    requires Covered(s)
  {
    Open(s, d) && s.cycle[Target(s, d)] == (s.cycle[s.snake[0]] + 1) % s.cycleLen
  }

  /** The best shortcut: an improving move, closest to the food along the
      cycle, ties going to the first in enum order. */
  ghost predicate BestShortcut(s: Situation, m: Direction)
    requires Covered(s)
  {
    Improves(s, m) && forall d :: Improves(s, d) ==> NoWorseThan(s, m, d)
  }

  /** The first move in enum order onto the head's successor on the cycle. */
  ghost predicate FirstOnCycle(s: Situation, m: Direction)
    requires Covered(s)
  {
    FollowsCycle(s, m) && forall d :: FollowsCycle(s, d) ==> Rank(m) <= Rank(d)
  }

  /** The specification of the move choice, by cases on the status it reports.
      A shortcut is taken exactly when an improving move exists, and it is the
      best one. Otherwise the cycle is followed when its next cell is
      reachable, and failing that the answer is UP with status PANIC. */
  ghost predicate Chosen(s: Situation, move: Direction, status: AiStatus)
    requires Covered(s)
  {
    && status != Initializing
    && (status == TakingShortcut <==> exists d :: Improves(s, d))
    && (status == TakingShortcut ==> BestShortcut(s, move))
    && (status == MindmasterCycle <==>
          (forall d :: !Improves(s, d)) && exists d :: FollowsCycle(s, d))
    && (status == MindmasterCycle ==> FirstOnCycle(s, move))
    && (status == Panic ==> move == Up)
  }

  /** The specification leaves no freedom: one move and one status satisfy it. */
  lemma ChosenIsUnique(s: Situation, m1: Direction, st1: AiStatus, m2: Direction, st2: AiStatus)
    requires Covered(s) && Chosen(s, m1, st1) && Chosen(s, m2, st2)
    ensures m1 == m2 && st1 == st2
  {
    if st1 == TakingShortcut {
      assert NoWorseThan(s, m1, m2) && NoWorseThan(s, m2, m1);
      assert Rank(m1) == Rank(m2);
    } else if st1 == MindmasterCycle {
      assert Rank(m1) == Rank(m2);
    }
  }

  /** A chosen move other than PANIC never ends the game: it stays in the
      board and off the body, so `step` does not report a collision. */
  lemma ChosenIsLegal(s: Situation, move: Direction, status: AiStatus)
    requires Covered(s) && Chosen(s, move, status) && status != Panic
    ensures Open(s, move)
    ensures !Collides(s.snake, Target(s, move))
  {
    var head := Target(s, move);
    var body := s.snake[..|s.snake| - 1];
    forall j | 0 <= j < |body|
      ensures s.snake[j] != head
    {
      assert body[j] == s.snake[j];
    }
  }

  /** The cycle is the zig-zag over the whole board: its length is the number
      of cells and each mapped cell sits at its own position. */
  ghost predicate OnZigZag(s: Situation) {
    s.cycleLen == Width * Height &&
    forall c :: c in s.cycle ==> s.cycle[c] < s.cycleLen && CycleCell(Width, Height, s.cycle[c]) == c
  }

  /** The cell after the head on the cycle. */
  ghost function Successor(s: Situation): Cell
    requires Covered(s)
  {
    CycleCell(Width, Height, (s.cycle[s.snake[0]] + 1) % s.cycleLen)
  }

  /** On the zig-zag the head's successor is an in-grid cell whose cycle
      position is the one after the head's. */
  lemma SuccessorOnCycle(s: Situation)
    requires Covered(s) && OnZigZag(s)
    ensures InGrid(Successor(s)) && Successor(s) in s.cycle
    ensures s.cycle[Successor(s)] == (s.cycle[s.snake[0]] + 1) % s.cycleLen
  {
    var next := (s.cycle[s.snake[0]] + 1) % s.cycleLen;
    assert 0 <= next < Width * Height;
    CycleCellRoundTrip(Width, Height, next);
    var succ := Successor(s);
    assert succ in s.cycle;
    var at := s.cycle[succ];
    CycleCellRoundTrip(Width, Height, at);
  }

  /** On the zig-zag the head's successor is one move away. */
  lemma SuccessorIsAMove(s: Situation)
    requires Covered(s) && OnZigZag(s)
    ensures exists d :: Target(s, d) == Successor(s)
  {
    var idx := s.cycle[s.snake[0]];
    assert CycleCell(Width, Height, idx) == s.snake[0];
    assert Adjacent(s.snake[0], Successor(s)) by {
      CycleIsAdjacent(Width, Height, idx);
    }
    AdjacentIsNeighbour(s.snake[0], Successor(s));
    var d :| Neighbour(s.snake[0], d) == Successor(s);
    assert Target(s, d) == Successor(s);
  }

  /** The fallback never panics while the head's successor on the cycle is
      off the body: some move then follows the cycle. */
  lemma NoPanicWhileSuccessorFree(s: Situation, move: Direction, status: AiStatus)
    requires Covered(s) && OnZigZag(s) && Chosen(s, move, status)
    requires Successor(s) !in s.snake[..|s.snake| - 1]
    ensures status == TakingShortcut || status == MindmasterCycle
  {
    SuccessorOnCycle(s);
    SuccessorIsAMove(s);
    var d :| Target(s, d) == Successor(s);
    assert FollowsCycle(s, d);
  }

  /** The cycle step itself counts as a shortcut when it is safe: it is one
      position closer to the food, so the choice reports "Taking Shortcut!",
      and "Mindmaster Cycle" is left for a successor that is unsafe or
      blocked. The food never lies under the head (the board invariant). */
  lemma SafeCycleStepIsShortcut(s: Situation, d: Direction, move: Direction, status: AiStatus)
    requires Covered(s) && OnZigZag(s) && s.food != s.snake[0]
    requires Target(s, d) == Successor(s) && Safe(s, d) && Chosen(s, move, status)
    ensures Improves(s, d) && status == TakingShortcut
  {
    SuccessorOnCycle(s);
    var h, f, n := s.cycle[s.snake[0]], s.cycle[s.food], s.cycleLen;
    assert h != f by {
      assert CycleCell(Width, Height, h) == s.snake[0] && CycleCell(Width, Height, f) == s.food;
    }
    NextPosition(h, n);
    assert FoodDist(s, d) == DistCycle((h + 1) % n, f, n);
    assert FoodDist(s, d) < HeadToFood(s);
    assert Improves(s, d);
  }

  /** `moves` lists the open moves in enum order, each with the cell it leads to. */
  ghost predicate ListsOpenMoves(s: Situation, moves: seq<(Direction, Cell)>)
    requires |s.snake| >= 1
  {
    (forall j :: 0 <= j < |moves| ==> moves[j].1 == Target(s, moves[j].0) && Open(s, moves[j].0)) &&
    InRankOrder(moves) &&
    (forall d :: Open(s, d) ==> exists j :: 0 <= j < |moves| && moves[j].0 == d)
  }

  /** The entries of `ds` that pass `keep`, in their order, each paired with
      the cell `at` gives it. */
  function Filter(ds: seq<Direction>, keep: Direction -> bool, at: Direction -> Cell): seq<(Direction, Cell)>
  {
    if ds == [] then []
    else
      var d := ds[|ds| - 1];
      Filter(ds[..|ds| - 1], keep, at) + if keep(d) then [(d, at(d))] else []
  }

  /** Each entry of `moves` passes `keep`, carries the cell `at` gives it and
      comes from among the first `n` directions. */
  ghost predicate PassFirst(moves: seq<(Direction, Cell)>, keep: Direction -> bool, at: Direction -> Cell, n: nat) {
    forall j :: 0 <= j < |moves| ==> moves[j].1 == at(moves[j].0) && keep(moves[j].0) && Rank(moves[j].0) < n
  }

  /** The entries of `moves` are in enum order. */
  predicate InRankOrder(moves: seq<(Direction, Cell)>) {
    forall j1, j2 :: 0 <= j1 < j2 < |moves| ==> Rank(moves[j1].0) < Rank(moves[j2].0)
  }

  /** Every one of the first `n` directions that passes `keep` is in `moves`. */
  ghost predicate CoversFirst(moves: seq<(Direction, Cell)>, keep: Direction -> bool, n: nat) {
    forall d :: Rank(d) < n && keep(d) ==> exists j :: 0 <= j < |moves| && moves[j].0 == d
  }

  /** Filtering the first `n` directions keeps only entries that pass, each
      with its cell. */
  lemma {:induction false} FilterFirstPass(keep: Direction -> bool, at: Direction -> Cell, n: nat)
    requires n <= |Directions|
    ensures PassFirst(Filter(Directions[..n], keep, at), keep, at, n)
  {
    if n > 0 {
      FilterFirstPass(keep, at, n - 1);
      var d := Directions[n - 1];
      RankOfIndex(n - 1);
      assert Directions[..n][..n - 1] == Directions[..n - 1];
      var before := Filter(Directions[..n - 1], keep, at);
      if keep(d) {
        assert Filter(Directions[..n], keep, at) == before + [(d, at(d))];
      } else {
        assert Filter(Directions[..n], keep, at) == before;
      }
    } else {
      assert Directions[..n] == [];
    }
  }

  /** Filtering keeps enum order. */
  lemma {:induction false} FilterFirstSorted(keep: Direction -> bool, at: Direction -> Cell, n: nat)
    requires n <= |Directions|
    ensures InRankOrder(Filter(Directions[..n], keep, at))
  {
    if n > 0 {
      FilterFirstSorted(keep, at, n - 1);
      FilterFirstPass(keep, at, n - 1);
      var d := Directions[n - 1];
      RankOfIndex(n - 1);
      assert Directions[..n][..n - 1] == Directions[..n - 1];
      var before := Filter(Directions[..n - 1], keep, at);
      if keep(d) {
        var moves := before + [(d, at(d))];
        assert Filter(Directions[..n], keep, at) == moves;
        forall j1, j2 | 0 <= j1 < j2 < |moves|
          ensures Rank(moves[j1].0) < Rank(moves[j2].0)
        {
          assert moves[j1] == before[j1];
          if j2 < |before| {
            assert moves[j2] == before[j2];
          }
        }
      } else {
        assert Filter(Directions[..n], keep, at) == before;
      }
    } else {
      assert Directions[..n] == [];
    }
  }

  /** Every one of the first `n` directions that passes is listed. */
  lemma {:induction false} FilterFirstCovers(keep: Direction -> bool, at: Direction -> Cell, n: nat)
    requires n <= |Directions|
    ensures CoversFirst(Filter(Directions[..n], keep, at), keep, n)
  {
    if n > 0 {
      FilterFirstCovers(keep, at, n - 1);
      var d := Directions[n - 1];
      RankOfIndex(n - 1);
      assert Directions[..n][..n - 1] == Directions[..n - 1];
      var before := Filter(Directions[..n - 1], keep, at);
      var moves := Filter(Directions[..n], keep, at);
      if keep(d) {
        assert moves == before + [(d, at(d))];
      } else {
        assert moves == before;
      }
      forall e | Rank(e) < n && keep(e)
        ensures exists j :: 0 <= j < |moves| && moves[j].0 == e
      {
        if Rank(e) == n - 1 {
          assert moves[|moves| - 1].0 == e;
        } else {
          var j :| 0 <= j < |before| && before[j].0 == e;
          assert moves[j] == before[j];
        }
      }
    }
  }

  /** A filtered list whose test is `Open` and whose cells are the targets
      lists the open moves. */
  lemma FilteredOpenMoves(s: Situation, keep: Direction -> bool, at: Direction -> Cell, moves: seq<(Direction, Cell)>)
    requires |s.snake| >= 1
    requires forall d :: keep(d) == Open(s, d) && at(d) == Target(s, d)
    requires PassFirst(moves, keep, at, |Directions|) && InRankOrder(moves)
    requires CoversFirst(moves, keep, |Directions|)
    ensures ListsOpenMoves(s, moves)
  {
    forall d | Open(s, d)
      ensures exists j :: 0 <= j < |moves| && moves[j].0 == d
    {
      assert keep(d) && Rank(d) < |Directions|;
    }
  }

  /** The moves that stay in the board and off the body (`valid_moves`). */
  method ValidMoves(s: Situation) returns (moves: seq<(Direction, Cell)>)
    requires |s.snake| >= 1
    ensures ListsOpenMoves(s, moves)
  {
    var head := s.snake[0];
    ghost var keep := d => Open(s, d);
    ghost var at := d => Target(s, d);
    moves := [];
    for i := 0 to |Directions|
      invariant moves == Filter(Directions[..i], keep, at)
    {
      var d := Directions[i];
      var nPos := Cell(head.x + d.DX(), head.y + d.DY());
      assert Directions[..i + 1][..i] == Directions[..i];
      assert nPos == at(d);
      if 0 <= nPos.x < Width && 0 <= nPos.y < Height {
        if nPos !in s.snake[..|s.snake| - 1] {
          moves := moves + [(d, nPos)];
        }
      }
    }
    assert Directions[..|Directions|] == Directions;
    FilterFirstPass(keep, at, |Directions|);
    FilterFirstSorted(keep, at, |Directions|);
    FilterFirstCovers(keep, at, |Directions|);
    FilteredOpenMoves(s, keep, at, moves);
  }

  /** The shortcut scan over the first `k` listed moves: the best move found
      so far and the distance to beat. A move replaces the best when it is
      safe and strictly closer to the food; the head's own distance is the
      first bar. */
  function ShortcutScan(s: Situation, moves: seq<(Direction, Cell)>, k: nat): (Option<Direction>, int)
    requires Covered(s) && k <= |moves|
  {
    if k == 0 then (None, HeadToFood(s))
    else
      var (best, bar) := ShortcutScan(s, moves, k - 1);
      var m := moves[k - 1].0;
      if Safe(s, m) && FoodDist(s, m) < bar then (Some(m), FoodDist(s, m)) else (best, bar)
  }

  /** What the scan over the first `k` moves has established: with nothing
      found, none of them improves and the bar is the head's distance;
      otherwise the move found is one of them, improves, sets the bar and is
      no worse than any of them that improves. */
  ghost predicate ScanResult(s: Situation, moves: seq<(Direction, Cell)>, k: nat, r: (Option<Direction>, int))
    requires Covered(s) && k <= |moves|
  {
    (r.0.None? ==>
       r.1 == HeadToFood(s) && forall j :: 0 <= j < k ==> !Improves(s, moves[j].0)) &&
    (r.0.Some? ==>
       (exists i :: 0 <= i < k && moves[i].0 == r.0.value) &&
       Improves(s, r.0.value) && r.1 == FoodDist(s, r.0.value) &&
       forall j :: 0 <= j < k && Improves(s, moves[j].0) ==> NoWorseThan(s, r.0.value, moves[j].0))
  }

  /** On moves in enum order the scan keeps the best improving move, ties
      going to the earlier one. */
  lemma {:induction false} ShortcutScanKeepsBest(s: Situation, moves: seq<(Direction, Cell)>, k: nat)
    requires Covered(s) && k <= |moves| && InRankOrder(moves)
    ensures ScanResult(s, moves, k, ShortcutScan(s, moves, k))
  {
    if k > 0 {
      ShortcutScanKeepsBest(s, moves, k - 1);
      var (best, bar) := ShortcutScan(s, moves, k - 1);
      var m := moves[k - 1].0;
      if Safe(s, m) && FoodDist(s, m) < bar {
        assert Improves(s, m);
        forall j | 0 <= j < k && Improves(s, moves[j].0)
          ensures NoWorseThan(s, m, moves[j].0)
        {
        }
      } else if best.Some? {
        forall j | 0 <= j < k && Improves(s, moves[j].0)
          ensures NoWorseThan(s, best.value, moves[j].0)
        {
          if j == k - 1 {
            var i :| 0 <= i < k - 1 && moves[i].0 == best.value;
            assert Rank(moves[i].0) < Rank(moves[j].0);
          }
        }
      }
    }
  }

  /** Scanning every open move finds the best shortcut when there is one and
      nothing otherwise. */
  lemma ShortcutScanFindsBest(s: Situation, moves: seq<(Direction, Cell)>)
    requires Covered(s) && ListsOpenMoves(s, moves)
    ensures ShortcutScan(s, moves, |moves|).0.Some? ==>
              BestShortcut(s, ShortcutScan(s, moves, |moves|).0.value)
    ensures ShortcutScan(s, moves, |moves|).0.None? ==> forall d :: !Improves(s, d)
  {
    var r := ShortcutScan(s, moves, |moves|);
    ShortcutScanKeepsBest(s, moves, |moves|);
    if r.0.Some? {
      forall d | Improves(s, d)
        ensures NoWorseThan(s, r.0.value, d)
      {
        var j :| 0 <= j < |moves| && moves[j].0 == d;
      }
    } else {
      forall d | Open(s, d)
        ensures !Improves(s, d)
      {
        var j :| 0 <= j < |moves| && moves[j].0 == d;
      }
    }
  }

  /** The shortcut loop of `get_next_move`: the first safe move whose cycle
      distance to the food beats the best so far, starting from the head's
      own distance. */
  method FindShortcut(s: Situation, validMoves: seq<(Direction, Cell)>) returns (best: Option<Direction>)
    requires Covered(s) && ListsOpenMoves(s, validMoves)
    ensures best.Some? ==> BestShortcut(s, best.value)
    ensures best.None? ==> forall d :: !Improves(s, d)
  {
    var tailIdx := s.cycle[s.snake[|s.snake| - 1]];
    var foodIdx := s.cycle[s.food];
    var minDistToFood := DistCycle(s.cycle[s.snake[0]], foodIdx, s.cycleLen);
    best := None;
    for k := 0 to |validMoves|
      invariant (best, minDistToFood) == ShortcutScan(s, validMoves, k)
    {
      var (m, pos) := validMoves[k];
      assert pos == Target(s, m) && Open(s, m);
      var posIdx := s.cycle[pos];
      var dHeadTail := DistCycle(posIdx, tailIdx, s.cycleLen);
      var futureLen := |s.snake|;
      if pos == s.food {
        futureLen := futureLen + 1;
      }
      if dHeadTail > futureLen + Margin {
        var dFood := DistCycle(posIdx, foodIdx, s.cycleLen);
        if dFood < minDistToFood {
          minDistToFood := dFood;
          best := Some(m);
        }
      }
    }
    ShortcutScanFindsBest(s, validMoves);
  }

  /** The fallback scan: the first valid move onto the head's successor on the cycle. */
  method FindCycleMove(s: Situation, validMoves: seq<(Direction, Cell)>) returns (next: Option<Direction>)
    requires Covered(s) && ListsOpenMoves(s, validMoves)
    ensures next.Some? ==> FirstOnCycle(s, next.value)
    ensures next.None? ==> forall d :: !FollowsCycle(s, d)
  {
    var targetIdx := (s.cycle[s.snake[0]] + 1) % s.cycleLen;
    for k := 0 to |validMoves|
      invariant forall j :: 0 <= j < k ==> !FollowsCycle(s, validMoves[j].0)
    {
      if s.cycle[validMoves[k].1] == targetIdx {
        forall d | FollowsCycle(s, d)
          ensures Rank(validMoves[k].0) <= Rank(d)
        {
          var j :| 0 <= j < |validMoves| && validMoves[j].0 == d;
          if k < j {
            assert Rank(validMoves[k].0) < Rank(validMoves[j].0);
          }
        }
        return Some(validMoves[k].0);
      }
    }
    forall d | Open(s, d)
      ensures !FollowsCycle(s, d)
    {
      var j :| 0 <= j < |validMoves| && validMoves[j].0 == d;
    }
    return None;
  }

  /** `get_next_move` without its side effects on the controller and the game:
      a shortcut if one improves, else the cycle's next cell, else UP. */
  method ChooseMove(s: Situation) returns (move: Direction, status: AiStatus)
    requires Covered(s)
    ensures Chosen(s, move, status)
  {
    var validMoves := ValidMoves(s);
    var best := FindShortcut(s, validMoves);
    if best.Some? {
      return best.value, TakingShortcut;
    }
    var next := FindCycleMove(s, validMoves);
    if next.Some? {
      return next.value, MindmasterCycle;
    }
    return Up, Panic;
  }

  /** The controller: the game it drives, the cycle over the 20 x 30 board and
      the planned path it publishes (always left empty). */
  class AIController {
    const game: SnakeGame
    const hamilton: HamiltonianGenerator
    const cycle: map<Cell, nat>
    const cycleLen: nat
    var currentPath: seq<Cell>

    /** The cycle covers the board, each cell mapped to its position. */
    ghost predicate CycleReady() {
      cycleLen == Width * Height &&
      (forall c :: InGrid(c) <==> c in cycle) &&
      (forall c :: c in cycle ==> cycle[c] < cycleLen && CycleCell(Width, Height, cycle[c]) == c)
    }

    constructor (game: SnakeGame)
      ensures this.game == game && currentPath == [] && CycleReady()
    {
      this.game := game;
      var generator := new HamiltonianGenerator(Width, Height);
      hamilton := generator;
      cycle := generator.cycleMap;
      cycleLen := |generator.path|;
      currentPath := [];
      new;
      forall c | c in cycle
        ensures cycle[c] < cycleLen && CycleCell(Width, Height, cycle[c]) == c
      {
        var i :| 0 <= i < |generator.path| && generator.path[i] == c;
        assert cycle[generator.path[i]] == i;
      }
    }

    function CurrentSituation(): Situation
      reads game
    {
      Situation(game.snake, game.food, cycle, cycleLen)
    }

    /** Chooses the next move, clears the planned path and records the status
        on the game. */
    method GetNextMove() returns (move: Direction)
      requires CycleReady() && game.Valid()
      modifies this`currentPath, game`aiStatus
      ensures game.Valid() && game.snake == old(game.snake) && game.food == old(game.food)
      ensures currentPath == []
      ensures Covered(CurrentSituation()) && OnZigZag(CurrentSituation())
      ensures Chosen(CurrentSituation(), move, game.aiStatus)
    {
      currentPath := [];
      var status;
      move, status := ChooseMove(CurrentSituation());
      game.aiStatus := status;
    }
  }
}
