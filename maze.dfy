/** `MazeGenerator` as an object: the grid, the stack, the visited set,
    `done` and `done_tick` are fields that each frame reassigns (the grid is
    a `seq<seq<int>>` value replaced by each step), kept consistent with the
    search state of `MazeSearch`. */
module Maze {
  import opened Helpers
  import opened MazeSearch

  class MazeGenerator {
    var h: int
    var w: int
    var mh: int
    var mw: int
    var grid: seq<seq<int>>
    var stack: seq<Cell>
    var visited: set<Cell>
    var done: bool
    var doneTick: int
    /** The passage points of `grid`, kept beside it for the proofs. */
    ghost var passages: set<Cell>

    ghost predicate Valid()
      reads this
    {
      Consistent(h, w, mh, mw, grid, Snapshot(), done, doneTick)
    }

    /** The state `reset` leaves: all walls but the start room (1, 1), which
        is open, visited and on the stack when the maze has room for it. */
    ghost predicate JustReset()
      reads this
    {
      var start := 1 < mh && 1 < mw;
      grid == Picture(mh, mw, visited) &&
      stack == (if start then [(1, 1)] else []) &&
      visited == (if start then {(1, 1)} else {}) &&
      !done && doneTick == 0
    }

    /** The search part of the state. */
    ghost function Snapshot(): Search
      reads this
    {
      Search(passages, visited, stack)
    }

    ghost function Measure(): int
      reads this
    {
      Progress(mh, mw, Snapshot())
    }

    constructor (h: int, w: int)
      ensures Valid() && JustReset() && this.h == h && this.w == w
    {
      this.h, this.w := h, w;
      new;
      Reset();
    }

    method Resize(h: int, w: int)
      modifies this
      ensures Valid() && JustReset() && this.h == h && this.w == w
    {
      this.h, this.w := h, w;
      Reset();
    }

    method Reset()
      modifies this
      ensures Valid() && JustReset() && h == old(h) && w == old(w)
    {
      var mh', mw' := MazeSize(h), MazeSize(w);
      var g := Walls(mh', mw');
      var sy, sx := 1, 1;
      var start := sy < mh' && sx < mw';
      if start {
        g := Carved(g, (sy, sx));
      }
      var v: set<Cell> := if start then {(sy, sx)} else {};
      var s: seq<Cell> := if start then [(sy, sx)] else [];
      StartConsistent(h, w, g, start);
      mh, mw, grid, stack, visited, done, doneTick, passages := mh', mw', g, s, v, false, 0, v;
    }

    /** `_neighbors(y, x)`: the candidates inside the outer wall and not yet
        visited, in the order up, down, left, right. */
    method Neighbors(y: int, x: int) returns (r: seq<Cell>)
      ensures r == Unvisited(Candidates((y, x)), mh, mw, visited)
    {
      var dirs := [(y - 2, x), (y + 2, x), (y, x - 2), (y, x + 2)];
      r := [];
      for i := 0 to |dirs|
        invariant r + Unvisited(dirs[i..], mh, mw, visited) == Unvisited(dirs, mh, mw, visited)
      {
        UnvisitedFrom(dirs, i, mh, mw, visited);
        var (ny, nx) := dirs[i];
        if 1 <= ny < mh - 1 && 1 <= nx < mw - 1 && (ny, nx) !in visited {
          r := r + [(ny, nx)];
        }
      }
    }

    /** Stores the search state after one step. */
    method SetSearch(grid': seq<seq<int>>, ghost passages': set<Cell>, visited': set<Cell>, stack': seq<Cell>)
      requires mh == MazeSize(h) && mw == MazeSize(w)
      requires grid' == Picture(mh, mw, passages') && SearchInv(mh, mw, passages', visited', stack')
      requires (done ==> stack' == []) && 0 <= doneTick <= HoldTicks && (!done ==> doneTick == 0)
      modifies this
      ensures Valid()
      ensures grid == grid' && passages == passages' && visited == visited' && stack == stack'
      ensures h == old(h) && w == old(w) && mh == old(mh) && mw == old(mw)
      ensures done == old(done) && doneTick == old(doneTick)
    {
      grid, visited, stack := grid', visited', stack';
      passages := passages';
    }

    /** A carving step: open the chosen candidate `n` of the top of the stack
        and the wall between them, mark `n` visited and push it. */
    method Carve(n: Cell)
      requires Valid() && stack != []
      requires n in Candidates(stack[|stack| - 1]) && Interior(n, mh, mw) && n !in visited
      modifies this
      ensures Valid()
      ensures h == old(h) && w == old(w) && mh == old(mh) && mw == old(mw)
      ensures done == old(done) && doneTick == old(doneTick)
      ensures stack == old(stack) + [n] && visited == old(visited) + {n}
      ensures grid == Carved(Carved(old(grid), Between(old(stack)[|old(stack)| - 1], n)), n)
      ensures passages == old(passages) + {Between(old(stack)[|old(stack)| - 1], n), n}
      ensures Measure() == old(Measure()) - 1
    {
      var c := stack[|stack| - 1];
      CarveInv(mh, mw, passages, visited, stack, n);
      var m := Between(c, n);
      CarvedTwice(mh, mw, passages, m, n);
      assert passages + {m} + {n} == passages + {m, n};
      SetSearch(Carved(Carved(grid, m), n), passages + {m, n}, visited + {n}, stack + [n]);
    }

    /** The other step: the top of the stack has no unvisited candidate, so pop it. */
    method Backtrack()
      requires Valid() && stack != []
      requires Unvisited(Candidates(stack[|stack| - 1]), mh, mw, visited) == []
      modifies this
      ensures Valid()
      ensures h == old(h) && w == old(w) && mh == old(mh) && mw == old(mw) && grid == old(grid)
      ensures done == old(done) && doneTick == old(doneTick) && visited == old(visited)
      ensures stack == old(stack)[..|old(stack)| - 1] && passages == old(passages)
      ensures Measure() == old(Measure()) - 1
    {
      BacktrackInv(mh, mw, passages, visited, stack);
      stack := stack[..|stack| - 1];
    }

    /** One carving step: carve towards the chosen unvisited candidate of
        the top of the stack, or pop the stack when there is none. */
    method Step(choice: nat)
      requires Valid() && stack != []
      modifies this
      ensures Valid()
      ensures h == old(h) && w == old(w) && mh == old(mh) && mw == old(mw)
      ensures done == old(done) && doneTick == old(doneTick)
      ensures var top := old(stack)[|old(stack)| - 1];
        var nbrs := Unvisited(Candidates(top), mh, mw, old(visited));
        if nbrs == [] then
          stack == old(stack)[..|old(stack)| - 1] && visited == old(visited) &&
          passages == old(passages) && grid == old(grid)
        else
          var n := nbrs[choice % |nbrs|];
          stack == old(stack) + [n] && visited == old(visited) + {n} &&
          passages == old(passages) + {Between(top, n), n}
      ensures Snapshot() == Advance(mh, mw, old(Snapshot()), choice)
      ensures Measure() == old(Measure()) - 1
    {
      var top := stack[|stack| - 1];
      var nbrs := Neighbors(top.0, top.1);
      assert (top.0, top.1) == top;
      ghost var next := Advance(mh, mw, Snapshot(), choice);
      if nbrs != [] {
        UnvisitedMembers(Candidates(top), mh, mw, visited);
        var n := nbrs[choice % |nbrs|];
        assert next == Search(passages + {Between(top, n), n}, visited + {n}, stack + [n]);
        Carve(n);
      } else {
        assert next == Search(passages, visited, stack[..|stack| - 1]);
        Backtrack();
      }
    }

    /** The done branch of `update`: hold the finished maze, and start a new
        one once the hold has lasted more than `HoldTicks` frames. */
    method Hold()
      requires Valid() && done
      modifies this
      ensures Valid() && h == old(h) && w == old(w)
      ensures old(doneTick) + 1 <= HoldTicks ==>
                done && doneTick == old(doneTick) + 1 && stack == old(stack) &&
                visited == old(visited) && grid == old(grid)
      ensures old(doneTick) + 1 > HoldTicks ==> JustReset()
    {
      doneTick := doneTick + 1;
      if doneTick > HoldTicks {
        Reset();
      }
    }

    /** `update` finds the stack empty: the maze is done. */
    method Finish()
      requires Valid() && stack == []
      modifies this
      ensures Valid() && done && doneTick == old(doneTick)
      ensures h == old(h) && w == old(w) && mh == old(mh) && mw == old(mw) && Snapshot() == old(Snapshot())
    {
      done := true;
    }

    /** Step `i` of a frame that found the stack non-empty: the state moves
        from `Carving` after `i` steps to `Carving` after `i + 1`. */
    method FrameStep(ghost start: Search, choices: seq<nat>, i: nat)
      requires Valid() && stack != [] && i < |choices|
      requires Snapshot() == Carving(mh, mw, start, choices, i)
      modifies this
      ensures Valid()
      ensures h == old(h) && w == old(w) && mh == old(mh) && mw == old(mw)
      ensures done == old(done) && doneTick == old(doneTick)
      ensures Snapshot() == Carving(mh, mw, start, choices, i + 1)
    {
      CarvingNext(mh, mw, start, choices, i);
      Step(choices[i]);
    }

    /** The carving branch of `update`: `CarveSteps(mh, mw)` steps of the
        backtracker as `Carving` gives them, setting `done` when a step finds
        the stack empty. */
    method CarveFrame(choices: seq<nat>)
      requires Valid() && !done && |choices| >= CarveSteps(mh, mw)
      modifies this
      ensures Valid() && h == old(h) && w == old(w) && mh == old(mh) && mw == old(mw)
      ensures Snapshot() == Carving(mh, mw, old(Snapshot()), choices, CarveSteps(mh, mw))
      ensures grid == Picture(mh, mw, passages)
      ensures done <==> Carving(mh, mw, old(Snapshot()), choices, CarveSteps(mh, mw) - 1).stack == []
      ensures doneTick == 0 && old(visited) <= visited
      ensures |visited| <= |old(visited)| + CarveSteps(mh, mw)
      ensures old(stack) == [] ==> done
      ensures old(stack) != [] ==> Measure() < old(Measure())
      ensures !done ==> Measure() + CarveSteps(mh, mw) <= old(Measure())
    {
      ghost var start := Snapshot();
      var steps := Max(1, (mh * mw) / 200);
      var i := 0;
      while i < steps
        invariant 0 <= i <= steps && Valid() && !done && doneTick == 0
        invariant h == old(h) && w == old(w) && mh == old(mh) && mw == old(mw)
        invariant Snapshot() == Carving(mh, mw, start, choices, i)
        invariant 0 < i ==> Carving(mh, mw, start, choices, i - 1).stack != []
      {
        if stack == [] {
          Finish();
          break;
        }
        FrameStep(start, choices, i);
        i := i + 1;
      }
      if done {
        CarvingStops(mh, mw, start, choices, i, steps);
        CarvingStops(mh, mw, start, choices, i, steps - 1);
      }
      CarvingProgress(mh, mw, start, choices, steps);
    }

    /** One frame. While done, count the hold ticks and restart after 80 of
        them; otherwise carve up to `CarveSteps` steps, with `choices[i]`
        standing for `random.choice` at step `i` (any index of the
        neighbour list is reachable as `choices[i] % |nbrs|`). */
    method Update(choices: seq<nat>)
      requires Valid() && |choices| >= CarveSteps(mh, mw)
      modifies this
      ensures Valid() && h == old(h) && w == old(w)
      ensures old(done) && old(doneTick) + 1 <= HoldTicks ==>
                done && doneTick == old(doneTick) + 1 && stack == old(stack) &&
                visited == old(visited) && grid == old(grid)
      ensures old(done) && old(doneTick) + 1 > HoldTicks ==> JustReset()
      ensures !old(done) ==>
                Snapshot() == Carving(mh, mw, old(Snapshot()), choices, CarveSteps(mh, mw)) &&
                (done <==> Carving(mh, mw, old(Snapshot()), choices, CarveSteps(mh, mw) - 1).stack == [])
      ensures !old(done) ==>
                doneTick == 0 && old(visited) <= visited &&
                |visited| <= |old(visited)| + CarveSteps(mh, mw)
      ensures !old(done) && old(stack) == [] ==> done
      ensures !old(done) && old(stack) != [] ==> Measure() < old(Measure())
      ensures !old(done) && !done ==> Measure() + CarveSteps(mh, mw) <= old(Measure())
      ensures done ==> visited == Rooms(mh, mw) && OpenConnected(passages)
    {
      if done {
        Hold();
        if done {
          Complete(mh, mw, passages, visited);
        }
      } else {
        CarveFrame(choices);
        if done {
          Complete(mh, mw, passages, visited);
        }
      }
    }
  }
}
