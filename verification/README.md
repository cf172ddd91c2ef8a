# Snake autopilot and its browser client, in Dafny

This project models the two sequential parts of a self-playing snake game.

**The server engine (`main.py`).**
- `SnakeGame` is a 20 x 30 board. It holds the snake as a list of cells (head first), one food cell, the score and a game-over flag.
- `HamiltonianGenerator` builds a fixed zig-zag Hamiltonian cycle over the board. Its `cycle_map` maps every cell to its position on that cycle.
- `AIController.get_next_move` picks the next move. It takes a shortcut off the cycle only when the shortcut brings the head closer to the food, measured along the cycle, and is safe: the cycle distance from the new cell to the tail must exceed the snake's length, plus one when the move eats, plus a margin of 3. The step onto the head's successor on the cycle is one position closer to the food, so when it is safe it is itself reported as a shortcut ("Taking Shortcut!"). The status "Mindmaster Cycle" therefore appears only when the successor is unsafe but still reachable. If neither is possible it answers UP with status PANIC.

**The browser client (`static/script.js`), its discrete logic only.**
- What each websocket snapshot does: a reward burst of 20 particles and a 7-frame screen shake when the score rises, and 50 gold particles for the `GOLD_RAIN` effect.
- What each animation frame does: the shake countdown, and the backward sweep that updates every particle once and splices out the expired ones.
- The pure choices behind the overlay, the hype glow, the head's eyes and the body hue.

Modules:
- `Grid` (`grid.dfy`): cells, the `Direction` enum in its iteration order, adjacency, duplicate-free sequences and a pigeonhole lemma.
- `Protocol` (`protocol.dfy`): the JSON snapshot the server sends and the client reads.
- `Hamiltonian` (`hamiltonian.dfy`): the cycle as a closed formula, `CycleCell`, and its inverse `CycleIndex`. The `HamiltonianGenerator` class builds the list with the source's loops and fills the map.
- `Engine` (`engine.dfy`): the `SnakeGame` class.
- `Autopilot` (`autopilot.dfy`):
  - `Chosen`, a declarative specification of the move choice;
  - the three scans of `get_next_move` (valid moves, shortcut, cycle successor), each proved against a specification function;
  - the `AIController` class.
- `Particles` (`particles.dfy`): the `Particle` class and how its life falls.
- `Browser` (`client.dfy`): the script's module-level state as a `Client` class, plus the pure display choices.

Two behaviours are kept exactly as the script writes them:
- The reward burst is spawned at the food of the **new** snapshot (`static/script.js:86`), not at the cell that was just eaten.
- The cell size is the fixed constant 24.8 (`static/script.js:29`), whatever the canvas size.

The client has no countdown timer and no rainbow mode, so the model has neither.

## Model

| member | source | states |
|---|---|---|
| Grid.Rank | main.py:19-23 | the position of each move in the enum's iteration order UP, DOWN, LEFT, RIGHT; indexing the order at that position gives the move back |
| Grid.RankOfIndex | main.py:19-23 | the iteration order lists each move once, so a position's move has that position as its rank |
| Grid.Neighbour | main.py:47-49 | the new head `(x + dx, y + dy)` is a 4-neighbour of the old head, offset by the move's unit vector |
| Grid.AdjacentIsNeighbour | main.py:19-23 | every 4-neighbour of a cell is reached by one of the four moves |
| Hamiltonian.CycleCellRoundTrip | main.py:245-263 | every position below w*h holds an in-grid cell, and `CycleIndex` maps that cell back to the position |
| Hamiltonian.CycleIndexRoundTrip | main.py:245-263 | every in-grid cell sits on the cycle at position `CycleIndex`, which is below w*h |
| Hamiltonian.CycleIsPermutation | main.py:245-263 | the w*h positions hold pairwise distinct in-grid cells, and every in-grid cell is one of them |
| Hamiltonian.CycleIsAdjacent | main.py:245-263 | with an even number of rows and at least two columns, consecutive cells are 4-neighbours, including the wrap from the last cell (0, 0) to the first cell (1, 0) |
| Hamiltonian.HamiltonianGenerator.ExpandToCycle | main.py:245-263 | the three append loops produce w*h cells, and cell i is the zig-zag's i-th cell |
| Hamiltonian.HamiltonianGenerator.Generate | main.py:139-143 | the path is the zig-zag; the map's keys are exactly the path's cells and the in-grid cells, and each path cell maps to its index |
| Hamiltonian.HamiltonianGenerator.constructor | main.py:79-83 | a new generator holds the zig-zag path and its index map |
| Engine.FreeCellExists | main.py:37-41 | a snake shorter than the board leaves a free in-grid cell, so the food search has something to find |
| Engine.MoveKeepsInvariant | main.py:52-64 | a non-colliding move that does not eat keeps the snake distinct and in the grid and the food off it, including a move into the cell the tail vacates |
| Engine.GrowKeepsDistinct | main.py:58-62 | eating never collides, and the old snake with the food cell in front stays distinct and in the grid |
| Engine.SnakeGame.constructor | main.py:26-35 | a new game is a one-cell snake at (10, 15) heading UP, score 0, not over, status "Initializing...", food on a free cell |
| Engine.SnakeGame.Reset | main.py:29-35 | the same fresh game, with the board invariant |
| Engine.SnakeGame.SpawnFood | main.py:37-41 | the new food is an in-grid cell off the snake |
| Engine.SnakeGame.Step | main.py:43-64 | once the game is over nothing changes; a collision sets game over and leaves snake, food and score alone; an ordinary move adds the new head and drops exactly the last cell; eating adds the food cell in front of the intact body and raises the score by one; the board invariant holds afterwards |
| Engine.SnakeGame.GetState | main.py:66-75 | the snapshot carries the snake, food, score, flag, status and the planned path, with grid size (20, 30); a valid game gives a well-formed snapshot |
| Autopilot.DistCycle | main.py:288-292 | for positions on the cycle, the forward distance lies in [0, len) and is 0 exactly when the positions coincide |
| Autopilot.DistCycleReaches | main.py:288-292 | walking the distance forward from `a`, wrapping at len, lands on `b` |
| Autopilot.ChosenIsUnique | main.py:274-372 | the specification of the choice leaves no freedom: one move and one status satisfy it |
| Autopilot.ChosenIsLegal | main.py:300-309 | any answer other than PANIC goes to an in-grid cell off `snake[:-1]`, so `step` does not end the game |
| Autopilot.SuccessorOnCycle | main.py:362 | on the zig-zag, the head's successor is an in-grid cell at position `(head_idx + 1) % len` |
| Autopilot.SuccessorIsAMove | main.py:362-368 | on the zig-zag, the head's successor is one move away |
| Autopilot.NoPanicWhileSuccessorFree | main.py:357-372 | while the successor is off the body the answer is a shortcut or the cycle, never PANIC |
| Autopilot.SafeCycleStepIsShortcut | main.py:344-355 | a safe move onto the successor is strictly closer to the food, so the status is "Taking Shortcut!" and "Mindmaster Cycle" needs an unsafe or blocked successor |
| Autopilot.FilterFirstPass | main.py:300-309 | the scan over the first n directions keeps only moves that pass the test, each with its cell |
| Autopilot.FilterFirstSorted | main.py:300-309 | the scan keeps the enum order |
| Autopilot.FilterFirstCovers | main.py:300-309 | every one of the first n directions that passes the test is listed |
| Autopilot.FilteredOpenMoves | main.py:300-309 | filtering the directions with the in-grid and not-in-body test lists exactly the open moves, in enum order, each with its target cell |
| Autopilot.ValidMoves | main.py:300-309 | `valid_moves` lists exactly the in-grid moves off `snake[:-1]`, in enum order, each with its cell |
| Autopilot.ShortcutScanKeepsBest | main.py:312-355 | after k moves the scan holds nothing (and none of them improves) or an improving move that is no worse than any improving one so far, earlier moves winning ties |
| Autopilot.ShortcutScanFindsBest | main.py:312-358 | scanning all valid moves finds the best shortcut when one exists and nothing otherwise |
| Autopilot.FindShortcut | main.py:294-358 | the loop's answer is the best shortcut when some valid move improves, and none when no move improves |
| Autopilot.FindCycleMove | main.py:360-368 | the first valid move onto position `(head_idx + 1) % len`, or none when no valid move leads there |
| Autopilot.ChooseMove | main.py:294-372 | the move and status satisfy `Chosen`: a shortcut exactly when one improves, else the cycle when possible, else UP with PANIC |
| Autopilot.AIController.constructor | main.py:267-272 | the controller's map covers the board and sends each cell to its zig-zag position, and `current_path` starts empty |
| Autopilot.AIController.GetNextMove | main.py:274-372 | `current_path` is emptied, snake and food are untouched, and the move and the status written to the game satisfy `Chosen` |
| Particles.Centre | static/script.js:67-68 | a cell's centre coordinate `g * 24.8 + 24.8 / 2` lies strictly inside the cell's pixel span `(g * 24.8, (g + 1) * 24.8)` and is equally far from both edges |
| Particles.Advanced | static/script.js:45-51 | one frame costs exactly `decay` life, and a positive decay strictly lowers it |
| Particles.Particle.constructor | static/script.js:32-43 | a new particle is at the given point with full life 1, the drawn velocity and decay, and friction 0.92 |
| Particles.Particle.Update | static/script.js:45-51 | position moves by the velocity, the velocity is damped by friction, life drops by decay |
| Particles.AdvancedFramesLife | static/script.js:45-51 | the life after n frames of `update` is `LifeAfter`, so the lemmas about `LifeAfter` speak about the particles' motion |
| Particles.LifeAfterIsLinear | static/script.js:50 | after n frames life has dropped by exactly n times the decay |
| Particles.LifeFalls | static/script.js:50 | with a positive decay, life strictly falls from frame to frame |
| Particles.ParticleExpires | static/script.js:39-40 | with decay at least 0.02, a particle starting at life 1 has no life left after 50 frames |
| Browser.OverlayFor | static/script.js:126-138 | the overlay shows exactly when the game is over or won; game over wins with "SYSTEM FAILURE" in #ff0055; otherwise a win shows "SYSTEM TRANSCENDED" in #ffd700 |
| Browser.OverlayOnlyOnGameOver | static/script.js:126-138 | without `game_won`, which the server never sets, the overlay is up exactly when the game is over, and the victory overlay never appears |
| Browser.GlowSpread | static/script.js:119-124 | a glow appears exactly when hype is present and positive; its spread is `min(hype * 2, 100)`, so it lies in (0, 100] |
| Browser.GlowSaturates | static/script.js:121 | from a hype of 50 on the spread is 100 |
| Browser.EyeDirection | static/script.js:250-264 | the eyes face right when head minus second segment has x offset 1, left when it is -1, down when neither and the y offset is 1, and up otherwise |
| Browser.EyesFollowMove | static/script.js:250-264 | after a move in direction d the eyes face d |
| Browser.SegmentHue | static/script.js:236-237 | segment i of n gets a hue in [180, 270) |
| Browser.HueIncreases | static/script.js:236-237 | hues strictly increase from the head towards the tail |
| Browser.ShakeCountsDown | static/script.js:160-165 | k frames take exactly k off the shake counter, stopping at 0 |
| Browser.SweepStep | static/script.js:274-281 | one step of the backward loop: splicing out an expired particle, or keeping a live one, extends the filtered suffix by one index |
| Browser.KeepMembers | static/script.js:274-281 | a particle survives the sweep exactly when its life is positive |
| Browser.KeepDistinct | static/script.js:274-281 | the sweep does not duplicate particles |
| Browser.LivesAfterSweep | static/script.js:274-276 | after each particle has advanced once, its life is the one the update predicts |
| Browser.SweepKeepsBounds | static/script.js:274-281 | survivors are distinct, with life in (0, 1] and a legal decay |
| Browser.Sweep | static/script.js:273-281 | every particle present before the sweep advances exactly one frame; the survivors are exactly those with positive life afterwards, in their old order, distinct and with life in (0, 1] |
| Browser.Client.constructor | static/script.js:8-11 | no snapshot, no particles, no shake; the overlay is taken to start hidden, because its initial state comes from the page markup, which is not part of this model |
| Browser.BurstKept | static/script.js:66-72 | particles appended after a burst leave it where it was |
| Browser.RainExtended | static/script.js:93-100 | appending burst `k` after the first `k` gold bursts gives the first `k + 1` |
| Browser.Client.SpawnParticles | static/script.js:66-72 | one new full-life particle per launch, in order, at the cell's centre with that launch's velocity and decay, appended after the old ones |
| Browser.Client.SpawnGoldRain | static/script.js:91-101 | exactly 5 x 10 new gold particles appended after the old ones; burst `k` is 10 full-life particles at the centre of the `k`-th random cell with the `k`-th draws |
| Browser.Client.PlayEffects | static/script.js:84-101 | a rising score appends the 20-particle reward burst at the food and sets the shake to 7; `GOLD_RAIN` appends the 5 x 10 gold bursts after it; older particles keep their places |
| Browser.Client.OnMessage | static/script.js:81-105 | a rising score after a previous snapshot appends exactly 20 full-life particles at the new food, one per draw, and sets the shake to 7; `GOLD_RAIN` appends 5 bursts of 10 full-life gold particles, each burst at the centre of its random cell with its draws, whatever the score; the snapshot replaces the old one and the page shows it; a rising score with no food aborts and leaves every field of the client unchanged |
| Browser.Client.UpdateUI | static/script.js:113-139 | without a snapshot nothing changes; otherwise the page shows its score, status, glow and overlay, and hiding the overlay keeps its last text |
| Browser.Client.Draw | static/script.js:154-165 | nothing happens before the first snapshot; otherwise the shake drops by one while positive, and the sweep runs |
| Browser.Client.TickShake | static/script.js:160-165 | the counter drops by one while it is positive |

## Left out

- The FastAPI app, uvicorn and the websocket loop (main.py:376-405): asynchronous I/O and sleeps. The loop's reset after game over is `Engine.SnakeGame.Reset`; the loop itself is not modelled.
- The randomised Prim spanning tree (main.py:85-122). Its result is never read by the cycle construction.
- The first zig-zag attempt (main.py:192-219). It is dead code, overwritten at main.py:245.
- tiktok_manager.py is not part of this model. The snapshot's `hype` and `tiktok_effect` keys are optional inputs of the client; the engine modelled here never sets them.
- Randomness becomes input.
  - `_spawn_food` draws random cells until one is free; here it is a nondeterministic choice of a free in-grid cell.
  - The particles' angle, speed and decay are a `Launch` parameter.
  - The `GOLD_RAIN` cells are a parameter. The model accepts any cells, not only the ones `Math.random` can produce.
- Engine.SnakeGame.SpawnFood: requires a free cell to exist, because the source's loop never ends on a full board.
- Engine.SnakeGame.Step: when the move eats, it requires a free cell to remain for the next food, for the same reason.
- Hamiltonian.HamiltonianGenerator.constructor: requires w, h >= 1. Adjacency of the cycle is proved for an even number of rows and at least two columns, which the 20 x 30 board meets.
- Particle life, position and velocity are exact reals, not IEEE doubles. The trigonometry behind the launch velocity is out; `LaunchOk` only bounds the launch speed to [2, 6).
- Canvas painting is out: the grid, the planned path, the food pulse, the snake's rectangles, the scanlines, the shake offsets and `Particle.draw`. Only the eye and hue choices are kept.
- The DOM, `JSON.parse`, `resizeCanvas` and the websocket reconnect (static/script.js:14-22, 74-80, 107-111) are out.
- Browser.Client.UpdateUI: records the score, status, glow spread and overlay title and colour as values. The formatted strings (`SCORE: …`, `SYSTEM: …`), the CSS `box-shadow` text and the text shadow are not modelled.
- Browser.Client.Draw: nothing in static/script.js starts the frame loop. The only call to `draw` is the `requestAnimationFrame(draw)` inside `draw` itself (static/script.js:154-155), and the file ends with `connect()` (static/script.js:292). Frames run only if the page markup starts the loop, and the markup is not part of this model. The model treats `Draw` as called once per frame.
- Browser.Client.Draw: the shake countdown and the particle sweep touch disjoint state. The model applies them in the opposite order to the script, with the same result.
- Browser.Sweep: the particle array is spliced on a local copy that then replaces the field. This matches the script because nothing else reads the array during the sweep.
- Browser.Client.OnMessage: in the script, a rising score with a missing `food` throws before any state changes. The model returns `false` instead and changes nothing.
