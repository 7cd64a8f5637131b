# Terminal art gallery: the integer core in Dafny

The Python program `art_gallery.py` is a curses "gallery" of ten generative
animations (Matrix Rain, Starfield, Fireworks, Game of Life, Plasma Waves,
Maze Generator, Spirograph, Raindrop Ripples, Lissajous Weaver and Voronoi
Landscape). The user switches between them with the arrow and digit keys,
pauses with space, resets with `r` and quits with `q`. A status row at the
bottom of the screen shows the current animation.

This project models the discrete part of that program and proves properties
of the model:

- `helpers.dfy`, module `Helpers`: `clamp`, and `Nat`, the length of Python's
  `range(n)`: zero for a negative `n`, which the program gets from a
  terminal with no rows (`h - 1 == -1`).
- `matrix_rain.dfy`, module `MatrixRain`: the drops of Matrix Rain. Each drop
  is a `Drop` value, and `class Rain` holds them in a `seq` that `reset` and
  `update` reassign.
  - Every `random.randint(lo, hi)` becomes a raw number `r`, mapped to
    `lo + r % (hi - lo + 1)`. That reaches every value of the range.
  - Every `random.random() < p` becomes a boolean coin.
  - A `ValueError` from `randint` on an empty range becomes the `raised`
    result.
- `game_of_life.dfy`, module `GameOfLife`: the toroidal B3/S23 board. It is a
  `seq<seq<bool>>` that `update` replaces with a newly built one. The age
  grid is an `array2<int>` that `update` rewrites in place, as the source
  rewrites `self.age[y][x]`.
- `maze_search.dfy`, module `MazeSearch`: the recursive-backtracker search
  as values. A `Search` holds the passage points, the visited rooms and the
  stack.
  - `Advance` is one carving step, and `Carving` is the first `k` steps of a
    frame.
  - The invariant `SearchInv` says four things: every passage has a reason,
    the passages are counted, the stack is searched, and every visited room
    is reached from (1, 1) along passages.
- `maze.dfy`, module `Maze`: `class MazeGenerator`. It has the same fields as
  the source: the grid, the stack, the visited set, `done` and `done_tick`.
  A ghost set of passage points sits beside the grid, and `Valid()` states
  the invariant. The choice `random.choice(nbrs)` in step `i` of a frame is
  `nbrs[choices[i] % |nbrs|]`, which reaches every neighbour.
- `status_bar.dfy`, module `StatusBar`: the text of the status row, including
  Python's `str` on integers.
- `gallery.dfy`, module `Gallery`: the main loop.
  - A `Director` holds the current index, the pause flag and the last
    terminal size.
  - `Step` is one iteration: it dispatches the key, checks for a resize and
    returns the list of requests (`Action`s) made of the animations.
  - `Run` is the loop over a sequence of inputs.

Python's `//` with a positive divisor is floor division, and so is Dafny's
`/` there (Euclidean), so `h // 2`, `(-h) // 2`, `(mh * mw) // 200` and
`(cy + ny) // 2` are written with `/`. Python's `%` with the positive
divisor 10 (`(current - 1) % 10`) is likewise Dafny's `%`. Integers are
unbounded in both languages.

## Model

| member | source | states |
|---|---|---|
| Helpers.Clamp | art_gallery.py:13-14 | the result is never below `lo`. When `lo <= hi` it lies in `[lo, hi]`: it is `v` when `v` is in the interval, `lo` below it and `hi` above it. When `hi < lo` it is `lo` |
| MatrixRain.Pick | art_gallery.py:57-60 | a `randint(lo, hi)` draw lies in `[lo, hi]` |
| MatrixRain.PickCovers | art_gallery.py:57-60 | every value of `[lo, hi]` is drawn by some raw number, so the parameters cover every random outcome |
| MatrixRain.Sprout | art_gallery.py:57-60 | a drop made by `reset` is in its own column, has its head in `[-h, 0]`, a speed in `[1, 3]` and a length in `[5, h // 2]` |
| MatrixRain.Sown | art_gallery.py:55-60 | after `n` columns, `reset` has made at most `n` drops |
| MatrixRain.SownBounds | art_gallery.py:55-60 | every drop made by `reset` is in a column `< w`, within the speed and length bounds, with its head at or above row 0 and its tail not past row `h` |
| MatrixRain.SownIncreasing | art_gallery.py:56-60 | the drops made by `reset` lie in strictly increasing columns, so there is at most one drop per column |
| MatrixRain.SownHits | art_gallery.py:56-60 | `reset` makes a drop in column `x` exactly when the coin for column `x` came up (`random() < 0.4`) |
| MatrixRain.Fall | art_gallery.py:67-73 | a drop keeps every bound. It is unchanged apart from `y += speed` exactly when `y + speed - length <= h`; otherwise it is recycled with its head in `[(-h) // 2, 0]` |
| MatrixRain.Spawned | art_gallery.py:75-79 | a spawned drop is within the bounds, with its head in `[-10, 0]` |
| MatrixRain.Rain.constructor | art_gallery.py:50-52 | the new object's drops are those of `reset` (when `reset` does not raise) |
| MatrixRain.Rain.Reset | art_gallery.py:54-60 | raises exactly when `h < 10` and some coin came up, leaving no drops. Otherwise the drops are `Sown(...)`, in strictly increasing columns, and `Valid()` holds |
| MatrixRain.Rain.Resize | art_gallery.py:62-64 | takes the new size, then has the same result as `Reset` |
| MatrixRain.Rain.Update | art_gallery.py:66-79 | drop `i` becomes `Fall` of the old drop `i`. One `Spawned` drop is appended exactly when the spawn coin came up, there were fewer drops than columns and `h >= 10`. It raises exactly when the coin came up, there were fewer drops than columns and `h < 10`. `Valid()`, which includes `len(drops) <= w`, is preserved |
| GameOfLife.Live | art_gallery.py:272-274 | a wrapped-around cell contributes 0 or 1 to the count |
| GameOfLife.Neighbours | art_gallery.py:268-274 | the neighbour count is at most 8 |
| GameOfLife.ScanCountsNeighbours | art_gallery.py:268-274 | the nested `dy`/`dx` scan over the nine offsets, skipping the cell itself, counts the eight wrapped neighbours |
| GameOfLife.CountNeighbours | art_gallery.py:267-274 | the loops' count equals `Neighbours` |
| GameOfLife.NextAge | art_gallery.py:279-283 | the new age is 0 exactly when the cell is dead (given a non-negative old age), old age + 1 when it stays live, and 1 when it is born |
| GameOfLife.Evolve | art_gallery.py:264-284 | the next board has the same `h` by `w` shape. A cell is live exactly when it was live with 2 or 3 live neighbours, or dead with exactly 3 |
| GameOfLife.Life.constructor | art_gallery.py:251-257 | the board is the random draw and every age is 0 |
| GameOfLife.Life.Reset | art_gallery.py:255-257 | the board is the new random draw and every age is 0, in a new age grid of the same shape |
| GameOfLife.Life.Resize | art_gallery.py:259-261 | takes the new size, then has the same result as `Reset` |
| GameOfLife.Life.UpdateRow | art_gallery.py:266-283 | fills row `y` of the new board with the successor of each cell, rewrites that row's ages by `NextAge`, and changes no other row |
| GameOfLife.Life.Generation | art_gallery.py:264-283 | the new board is `Evolve(grid)` and every age is rewritten by `NextAge` |
| GameOfLife.Life.Update | art_gallery.py:263-284 | the new board is `Evolve(old board)` and every age is its `NextAge`. So afterwards a cell's age is 0 exactly when the cell is dead, and at least 1 when it is live |
| MazeSearch.MazeSize | art_gallery.py:363-364 | `(n // 2) * 2 + 1` is odd, and equals `n` or `n + 1` for `n >= 0` |
| MazeSearch.CarveSteps | art_gallery.py:390 | at least one carving step is made per frame |
| MazeSearch.Unvisited | art_gallery.py:377-383 | the filtered list is no longer than the four candidates |
| MazeSearch.UnvisitedFrom | art_gallery.py:379-382 | one more candidate of the loop adds itself to the result exactly when it passes the test |
| MazeSearch.UnvisitedMembers | art_gallery.py:377-383 | a cell is a neighbour exactly when it is one of the four cells two steps away, inside `[1, mh-2] x [1, mw-2]` and not visited |
| MazeSearch.WallBetween | art_gallery.py:399-402 | the wall point `((cy+ny)//2, (cx+nx)//2)` is not a room and lies midway. The two rooms on either side of it are exactly the current cell and the chosen one |
| MazeSearch.ReachNext | art_gallery.py:399-402 | a walk over passages that reaches a point goes on to an adjacent open point |
| MazeSearch.ReachGrows | art_gallery.py:399-402 | opening more points keeps every point reachable |
| MazeSearch.BetweenAdjacent | art_gallery.py:399-402 | the wall point opened between a cell and its candidate is adjacent to both |
| MazeSearch.CarveConnected | art_gallery.py:396-404 | after a carve, every visited room, the new one included, is still reached from (1, 1) along passages |
| MazeSearch.StartInv | art_gallery.py:361-375 | the state `reset` leaves satisfies the search invariant |
| MazeSearch.CarveOpensWalls | art_gallery.py:399-402 | the wall point and the room a carve opens were both walls, so each carve opens two new points |
| MazeSearch.CarveInv | art_gallery.py:396-404 | a carving step keeps the search invariant: every passage has a reason, the passages number `2*|visited|-1`, the stack holds distinct visited rooms, every visited room off the stack has no unvisited candidate, and every visited room is reached from (1, 1) |
| MazeSearch.BacktrackInv | art_gallery.py:406-407 | popping a room with no unvisited neighbour keeps the search invariant |
| MazeSearch.UnvisitedCount | art_gallery.py:385-407 | the unvisited rooms number `|Rooms| - |visited|`, so the measure `2 * unvisited + |stack|` is a count |
| MazeSearch.ClosedSetCoversRooms | art_gallery.py:391-394 | a set of rooms that holds (1, 1) and all in-range candidates of its members holds every room |
| MazeSearch.Reach | art_gallery.py:391-394 | every room is reached from (1, 1) along candidate moves within such a set |
| MazeSearch.PassagesConnected | art_gallery.py:396-407 | under the invariant every open point, room or wall point, is reached from (1, 1) by a walk over open points |
| MazeSearch.Complete | art_gallery.py:391-394 | when the stack is empty every room is visited and every open point is reached from (1, 1) |
| MazeSearch.PassageCount | art_gallery.py:391-394 | when the stack is empty the passages number `2 * rooms - 1`: the rooms and `rooms - 1` wall points |
| MazeSearch.CarvedPicture | art_gallery.py:401-402 | opening one point of the grid adds exactly that point to the passages and changes no other point |
| MazeSearch.WallsPicture | art_gallery.py:365-375 | the all-wall grid has no passages, and opening (1, 1) in it gives exactly the passage (1, 1) |
| MazeSearch.CarvedTwice | art_gallery.py:401-402 | opening the wall point and then the room adds exactly those two points |
| MazeSearch.OpenCount | art_gallery.py:371-404 | the open points of the grid are exactly the passages, and there are `max(0, 2*|visited| - 1)` of them |
| MazeSearch.VisitedOpen | art_gallery.py:371-404 | every visited cell has odd coordinates, is inside the outer wall and is open, and so is every stack entry |
| MazeSearch.CarvingNext | art_gallery.py:390-407 | when step `i` of a frame finds the stack non-empty, the state after `i + 1` steps is `Advance` of the state after `i` with `choices[i]` |
| MazeSearch.AdvanceProgress | art_gallery.py:395-407 | a step visits at most one new room and lowers the measure by exactly 1 |
| MazeSearch.CarvingProgress | art_gallery.py:390-407 | `k` steps visit at most `k` new rooms and never raise the measure. They lower it when the stack was not empty, and by exactly `k` when no step found the stack empty |
| MazeSearch.CarvingStops | art_gallery.py:391-393 | once a step finds the stack empty, the later steps of the frame change nothing |
| MazeSearch.StartConsistent | art_gallery.py:361-375 | the grid of walls with (1, 1) opened, and the stack and visited set `reset` builds, satisfy the generator's invariant |
| Maze.MazeGenerator.constructor | art_gallery.py:353-355 | the new generator is in the state `reset` leaves |
| Maze.MazeGenerator.Resize | art_gallery.py:357-359 | takes the new size, then is in the state `reset` leaves |
| Maze.MazeGenerator.Reset | art_gallery.py:361-375 | `mh` and `mw` are `MazeSize(h)` and `MazeSize(w)`. The grid is all walls except an open (1, 1). Stack = [(1, 1)], visited = {(1, 1)}, not done, `done_tick` = 0. When (1, 1) does not fit, the stack and visited set are empty |
| Maze.MazeGenerator.Neighbors | art_gallery.py:377-383 | the loop returns `Unvisited` of the four candidates, in the order up, down, left, right |
| Maze.MazeGenerator.Carve | art_gallery.py:396-404 | opens exactly the wall point and the chosen room, adds that room to visited and pushes it. The invariant holds and the measure drops by 1 |
| Maze.MazeGenerator.Backtrack | art_gallery.py:406-407 | pops the stack, leaves the grid and visited set unchanged, keeps the invariant and lowers the measure by 1 |
| Maze.MazeGenerator.Step | art_gallery.py:394-407 | when the top of the stack has unvisited neighbours, the chosen one is pushed, visited, and it and the wall before it are opened. Otherwise the stack is popped and nothing else changes. The new search state is `Advance` of the old one, and the measure drops by 1 |
| Maze.MazeGenerator.Hold | art_gallery.py:386-389 | while done, only `done_tick` grows, by 1. Once it exceeds 80 the state is that of `reset` |
| Maze.MazeGenerator.Finish | art_gallery.py:391-393 | a step that finds the stack empty sets `done` and changes nothing else |
| Maze.MazeGenerator.FrameStep | art_gallery.py:391-407 | a step that finds the stack non-empty moves the search state from `Carving` after `i` steps to `Carving` after `i + 1` |
| Maze.MazeGenerator.CarveFrame | art_gallery.py:390-407 | the new search state is `Carving` of the old one over the frame's `steps` choices, and the grid is its picture. `done` is set exactly when one of the steps found the stack empty. At most `steps` rooms are visited, and a non-empty stack lowers the measure, by `steps` unless `done` is set |
| Maze.MazeGenerator.Update | art_gallery.py:385-407 | while done, the `Hold` result. Otherwise the `CarveFrame` result: the new state is `Carving` of the old one, with `done` exactly when a step found the stack empty. Whenever `done` holds, every room has been visited and every open point is reached from (1, 1) |
| StatusBar.NatDigits | art_gallery.py:742 | `str(n)` for `n >= 0` is a non-empty string of decimal digits, one character exactly when `n < 10`, and begins with '0' only for `n == 0` (no leading zero) |
| StatusBar.Decimal | art_gallery.py:742 | `str(n)` is never empty |
| StatusBar.NatDigitsRoundTrip | art_gallery.py:742 | the digits of `n` read back as `n` |
| StatusBar.DecimalRoundTrip | art_gallery.py:742 | `str(n)` of the position and the count reads back as the same integer |
| StatusBar.Spaces | art_gallery.py:750 | `" " * n` is `n` spaces |
| StatusBar.StatusLine | art_gallery.py:741-751 | the line is exactly `w` characters. It begins with the bar `" [idx+1/total] name"` (plus `"  [PAUSED]"` when paused), cut at `w`. When `w - len(bar) - len(controls) >= 1` the line ends with the controls, after spaces. Otherwise the controls are dropped and the rest of the line is spaces |
| StatusBar.ControlsLength | art_gallery.py:743 | the controls text is 52 characters |
| Gallery.Start | art_gallery.py:764-781 | the loop starts on the first animation, not paused, with the size read at start-up |
| Gallery.OnKey | art_gallery.py:785-803 | the key dispatch: the index becomes `Select(current, key)`, only space flips `paused`, only a resize key takes the new size, and the requests are one reset of the current animation for 'r', one resize to `(h - 1, w)` for a resize key, and none otherwise |
| Gallery.Select | art_gallery.py:787-794 | the index after a key stays in `[0, 10)`, and every key other than the arrows and the digits leaves it unchanged |
| Gallery.DigitKeysSelectEveryAnimation | art_gallery.py:791-794 | each of the ten animations is selected by one digit key ('1'..'9' for 0..8, '0' for 9) |
| Gallery.Step | art_gallery.py:784-818 | the loop quits exactly on 'q'. Otherwise the new index is `Select(current, key)` and stays in `[0, 10)`, space toggles `paused`, and the terminal size is the one just read |
| Gallery.FrameActions | art_gallery.py:797-818 | a frame's requests are exactly, in this order: the reset for 'r', one resize to `(h - 1, w)` when a resize key came or the size changed, the update of the current animation unless paused, and last the draw |
| Gallery.ResetOnlyCurrent | art_gallery.py:797-798 | a frame asks for a reset of animation `i` exactly when the key is 'r' and `i` is the current one |
| Gallery.ResizeBroadcast | art_gallery.py:799-811 | a resize is broadcast exactly when a resize key came or the size changed. Every resize gives the animations height `h - 1` and width `w` |
| Gallery.UpdateOnlyCurrent | art_gallery.py:813-814 | a frame updates animation `i` exactly when it is not paused and `i` is the current one |
| Gallery.DrawsEveryFrame | art_gallery.py:816-818 | every frame ends by drawing the current animation and the status row on row `h - 1` with width `w` |
| Gallery.StatusShowsCurrent | art_gallery.py:816-818 | the status row drawn by every frame is `w` characters and begins with `" [idx+1/10] name"` of the animation being shown, cut at `w` |
| Gallery.Trace | art_gallery.py:783-819 | running the loop keeps the index in `[0, 10)` |
| Gallery.Run | art_gallery.py:783-819 | the `while` loop produces exactly the outcome `Trace` describes |
| Gallery.RightPresses | art_gallery.py:787-788 | `n` right-arrow presses move the index to `(current + n) % 10` |
| Gallery.RightAroundTheGallery | art_gallery.py:787-788 | ten right-arrow presses return to the starting animation |
| Gallery.LeftUndoesRight | art_gallery.py:787-790 | right then left returns to the starting animation |
| Gallery.SpaceTwice | art_gallery.py:795-796 | two presses of space restore the pause flag and leave the animation unchanged |

## Left out

- Terminal I/O (the curses calls, `init_colors`, `getch`, `getmaxyx`,
  `addch`/`addstr`, `erase`/`refresh`, `curses.wrapper`, the
  `try/except curses.error` guards) is terminal plumbing. It is not
  modelled. The key and the terminal size read in a frame are inputs to
  `Gallery.Step`. Drawing is recorded as a `DrawFrame` action.
- Colour pairs and attributes inside every `draw`, and the random glyphs of
  Matrix Rain's `draw`, are cosmetic. They are not modelled.
- Starfield, Fireworks, Plasma Waves, Spirograph, Raindrop Ripples, Lissajous
  Weaver and Voronoi Landscape compute in floating point. They are not
  modelled. The gallery refers to every animation only by its index.
- Frame pacing (`timeout(33)`) depends on the clock and is not modelled.
- The random generator itself is not modelled. Its draws are parameters:
  coins for `random() < p`, raw numbers for `randint`, an index for
  `random.choice`, and the initial boards of Game of Life.
- Gallery.Step: the actions it returns are requests. Carrying them out on
  the animation objects is not composed with the classes of the other
  modules. Each class models its own `reset`, `resize` and `update`.
- Gallery.Step: the size is read once per frame as an input. The source
  calls `getmaxyx` twice when a resize key arrives, and the model takes
  both calls to return the same size.
- MatrixRain.Rain.constructor: it requires that the initial `reset` does not
  raise. A Dafny constructor has no result that could report the
  exception; `Reset`, `Resize` and `Update` report it as `raised`.
- A raised `ValueError` ends the Python program. The model returns
  `raised` and stops the method there, and does not model the program's
  exit.
- Maze.MazeGenerator: the grid is a `seq<seq<int>>` value that each step
  replaces, where the source mutates nested lists. Only the generator holds
  the grid, so no aliasing is lost.
- MazeSearch.Complete: the finished maze is shown to reach every room and
  every open point from (1, 1), with exactly `2 * rooms - 1` open points.
  That it has no cycle is not stated as a lemma of its own.
- GameOfLife.Life.Reset: after `reset` every age is 0 while some cells may
  be live, as in the source. So "age 0 exactly when dead" holds after
  `update`, not after `reset`.
- StatusBar.Bar builds the left part of the status row and has no contract
  of its own. `StatusLine` states what the row contains.
- MazeSearch.Advance and MazeSearch.Carving are the specification of one
  carving step and of a frame's steps, with no contract of their own.
  `CarvingNext`, `CarvingStops`, `AdvanceProgress` and `CarvingProgress`
  state their properties, and `Step`, `CarveFrame` and `Update` are proved
  against them.
- GameOfLife.NextAlive and GameOfLife.Successor decide B3/S23 for one cell
  and have no contract of their own. `Evolve` states the rule cell by cell.
- MatrixRain.Raises is the condition under which `reset`'s `randint` calls
  raise `ValueError`, with no contract of its own. `PrefixRaises` states
  that it holds for longer prefixes once it holds, and `Rain.Reset` states
  that it raises exactly when `h < 10` and some coin came up.
- Gallery.CheckSize has no contract of its own. `FrameActions` and `Step`
  state what the resize check adds to a frame.
