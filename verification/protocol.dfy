/** The JSON snapshot the server sends over the websocket on every tick and
    the browser client consumes. Keys the server never sends (`game_won`,
    `hype`, `tiktok_effect`) are optional on the client's side: a missing
    boolean reads as false, a missing value as None. */
module Protocol {
  import opened Grid

  datatype Option<T> = None | Some(value: T)

  datatype Snapshot = Snapshot(
    snake: seq<Cell>,
    food: Option<Cell>,
    score: int,
    gameOver: bool,
    gameWon: bool,
    gridSize: (int, int),
    aiStatus: string,
    plannedPath: seq<Cell>,
    hype: Option<real>,
    tiktokEffect: Option<string>)

  /** The snapshot invariant: a live snake, food present, every cell inside
      `[0, grid_size)`, and at most one of `game_over` / `game_won` set. */
  predicate WellFormed(s: Snapshot) {
    |s.snake| >= 1 && s.food.Some? &&
    (forall c :: c in s.snake ==> InRect(c, s.gridSize.0, s.gridSize.1)) &&
    InRect(s.food.value, s.gridSize.0, s.gridSize.1) &&
    !(s.gameOver && s.gameWon)
  }
}
