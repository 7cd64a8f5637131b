/** Conway's Game of Life on a torus, with a per-cell age counter. */
module GameOfLife {
  import opened Helpers

  /** `b` has `h` rows of `w` cells each. */
  predicate IsBoard(b: seq<seq<bool>>, h: nat, w: nat) {
    |b| == h && forall y :: 0 <= y < h ==> |b[y]| == w
  }

  /** 1 when the cell at `(y, x)`, wrapped around the torus, is live. */
  function Live(b: seq<seq<bool>>, h: nat, w: nat, y: int, x: int): (n: nat)
    requires IsBoard(b, h, w) && h > 0 && w > 0
    ensures n <= 1
  {
    if b[y % h][x % w] then 1 else 0
  }

  /** The number of live cells among the eight around `(y, x)`, each looked
      up with wrap-around (on a board one or two cells wide a cell can be
      counted more than once, as the source does). */
  function Neighbours(b: seq<seq<bool>>, h: nat, w: nat, y: int, x: int): (n: nat)
    requires IsBoard(b, h, w) && h > 0 && w > 0
    ensures n <= 8
  {
    Live(b, h, w, y - 1, x - 1) + Live(b, h, w, y - 1, x) + Live(b, h, w, y - 1, x + 1) +
    Live(b, h, w, y, x - 1) + Live(b, h, w, y, x + 1) +
    Live(b, h, w, y + 1, x - 1) + Live(b, h, w, y + 1, x) + Live(b, h, w, y + 1, x + 1)
  }

  /** The live cells among the first `k` of the nine offsets `(dy, dx)`, in
      the order the nested loops over `(-1, 0, 1)` visit them; offset 4 is
      the cell itself and is skipped. */
  function Scanned(b: seq<seq<bool>>, h: nat, w: nat, y: int, x: int, k: nat): nat
    requires IsBoard(b, h, w) && h > 0 && w > 0 && k <= 9
  {
    if k == 0 then 0
    else Scanned(b, h, w, y, x, k - 1) +
         (if k - 1 == 4 then 0 else Live(b, h, w, y + (k - 1) / 3 - 1, x + (k - 1) % 3 - 1))
  }

  lemma {:induction false} ScanCountsNeighbours(b: seq<seq<bool>>, h: nat, w: nat, y: int, x: int)
    requires IsBoard(b, h, w) && h > 0 && w > 0
    ensures Scanned(b, h, w, y, x, 9) == Neighbours(b, h, w, y, x)
  {
    assert Scanned(b, h, w, y, x, 1) == Live(b, h, w, y - 1, x - 1);
    assert Scanned(b, h, w, y, x, 2) == Scanned(b, h, w, y, x, 1) + Live(b, h, w, y - 1, x);
    assert Scanned(b, h, w, y, x, 3) == Scanned(b, h, w, y, x, 2) + Live(b, h, w, y - 1, x + 1);
    assert Scanned(b, h, w, y, x, 4) == Scanned(b, h, w, y, x, 3) + Live(b, h, w, y, x - 1);
    assert Scanned(b, h, w, y, x, 5) == Scanned(b, h, w, y, x, 4);
    assert Scanned(b, h, w, y, x, 6) == Scanned(b, h, w, y, x, 5) + Live(b, h, w, y, x + 1);
    assert Scanned(b, h, w, y, x, 7) == Scanned(b, h, w, y, x, 6) + Live(b, h, w, y + 1, x - 1);
    assert Scanned(b, h, w, y, x, 8) == Scanned(b, h, w, y, x, 7) + Live(b, h, w, y + 1, x);
  }

  /** B3/S23: a live cell survives with two or three live neighbours, a dead
      cell is born with exactly three. */
  function NextAlive(alive: bool, n: nat): bool {
    if alive then n == 2 || n == 3 else n == 3
  }

  /** The age a cell has after a step: one more for a cell that stays live,
      1 for a cell just born, 0 for a dead cell. */
  function NextAge(wasAlive: bool, isAlive: bool, age: int): (r: int)
    ensures r == 0 <==> !isAlive || (wasAlive && age == -1)
    ensures isAlive && age >= 0 ==> r >= 1
    ensures isAlive && wasAlive ==> r == age + 1
    ensures isAlive && !wasAlive ==> r == 1
  {
    if isAlive then (if wasAlive then age + 1 else 1) else 0
  }

  /** Whether cell `(y, x)` of `b` is live one generation later. */
  function Successor(b: seq<seq<bool>>, h: nat, w: nat, y: nat, x: nat): bool
    requires IsBoard(b, h, w) && y < h && x < w
  {
    NextAlive(b[y][x], Neighbours(b, h, w, y, x))
  }

  /** The board one generation later. */
  function Evolve(b: seq<seq<bool>>, h: nat, w: nat): (r: seq<seq<bool>>)
    requires IsBoard(b, h, w)
    ensures IsBoard(r, h, w)
    ensures forall y, x :: 0 <= y < h && 0 <= x < w ==>
              (r[y][x] <==> (b[y][x] && 2 <= Neighbours(b, h, w, y, x) <= 3) ||
                            (!b[y][x] && Neighbours(b, h, w, y, x) == 3))
  {
    seq(h, y requires 0 <= y < h =>
      seq(w, x requires 0 <= x < w => Successor(b, h, w, y, x)))
  }

  lemma BoardsEqual(a: seq<seq<bool>>, b: seq<seq<bool>>, h: nat, w: nat)
    requires IsBoard(a, h, w) && IsBoard(b, h, w)
    requires forall y, x :: 0 <= y < h && 0 <= x < w ==> a[y][x] == b[y][x]
    ensures a == b
  {
    forall y | 0 <= y < h ensures a[y] == b[y] {
      assert forall x :: 0 <= x < w ==> a[y][x] == b[y][x];
    }
  }

  /** The live neighbours of `(y, x)`, counted by the source's two nested
      loops over `dy` and `dx`. */
  method CountNeighbours(b: seq<seq<bool>>, h: nat, w: nat, y: nat, x: nat) returns (n: nat)
    requires IsBoard(b, h, w) && y < h && x < w
    ensures n == Neighbours(b, h, w, y, x)
  {
    n := 0;
    for dy := -1 to 2
      invariant n == Scanned(b, h, w, y, x, 3 * (dy + 1))
    {
      for dx := -1 to 2
        invariant n == Scanned(b, h, w, y, x, 3 * (dy + 1) + (dx + 1))
      {
        ghost var k := 3 * (dy + 1) + (dx + 1);
        assert k / 3 - 1 == dy && k % 3 - 1 == dx;
        if !(dy == 0 && dx == 0) {
          var ny, nx := (y + dy) % h, (x + dx) % w;
          if b[ny][nx] {
            n := n + 1;
          }
        }
      }
    }
    ScanCountsNeighbours(b, h, w, y, x);
  }

  class Life {
    var h: int
    var w: int
    var grid: seq<seq<bool>>
    var age: array2<int>

    /** The board is `h` rows of `w` cells and the age grid has the same
        shape (both empty when a dimension is not positive); no age is
        negative. */
    ghost predicate Valid()
      reads this, age
    {
      IsBoard(grid, Nat(h), Nat(w)) &&
      age.Length0 == Nat(h) && age.Length1 == Nat(w) &&
      forall y, x :: 0 <= y < age.Length0 && 0 <= x < age.Length1 ==> age[y, x] >= 0
    }

    /** `init` stands for the source's random draws: `init[y][x]` is whether
        `random.random() < 0.3` came out true for that cell. */
    constructor (h: int, w: int, init: seq<seq<bool>>)
      requires IsBoard(init, Nat(h), Nat(w))
      ensures Valid() && this.h == h && this.w == w && fresh(age)
      ensures grid == init
      ensures forall y, x :: 0 <= y < age.Length0 && 0 <= x < age.Length1 ==> age[y, x] == 0
    {
      this.h, this.w := h, w;
      grid := init;
      age := new int[Nat(h), Nat(w)]((y, x) => 0);
    }

    /** A fresh random board (see the constructor for `init`) and every age 0. */
    method Reset(init: seq<seq<bool>>)
      requires IsBoard(init, Nat(h), Nat(w))
      modifies this
      ensures Valid() && h == old(h) && w == old(w) && fresh(age)
      ensures grid == init
      ensures forall y, x :: 0 <= y < age.Length0 && 0 <= x < age.Length1 ==> age[y, x] == 0
    {
      grid := init;
      age := new int[Nat(h), Nat(w)]((y, x) => 0);
    }

    /** `resize(h, w)`: adopt the new size and start again from a fresh board. */
    method Resize(h: int, w: int, init: seq<seq<bool>>)
      requires IsBoard(init, Nat(h), Nat(w))
      modifies this
      ensures Valid() && this.h == h && this.w == w && fresh(age)
      ensures grid == init
      ensures forall y, x :: 0 <= y < age.Length0 && 0 <= x < age.Length1 ==> age[y, x] == 0
    {
      this.h, this.w := h, w;
      Reset(init);
    }

    /** The inner loop of a generation: fills row `y` of the new board and
        rewrites the ages of that row. */
    method UpdateRow(next: seq<seq<bool>>, y: nat) returns (next': seq<seq<bool>>)
      requires Valid() && IsBoard(next, Nat(h), Nat(w)) && y < Nat(h)
      modifies age
      ensures Valid() && IsBoard(next', Nat(h), Nat(w))
      ensures forall i :: 0 <= i < Nat(h) && i != y ==> next'[i] == next[i]
      ensures forall j :: 0 <= j < Nat(w) ==>
                next'[y][j] == Successor(grid, Nat(h), Nat(w), y, j) &&
                age[y, j] == NextAge(grid[y][j], next'[y][j], old(age[y, j]))
      ensures forall i, j :: 0 <= i < Nat(h) && i != y && 0 <= j < Nat(w) ==>
                age[i, j] == old(age[i, j])
    {
      var rows, cols := Nat(h), Nat(w);
      next' := next;
      for x := 0 to cols
        invariant Valid() && IsBoard(next', rows, cols)
        invariant forall i :: 0 <= i < rows && i != y ==> next'[i] == next[i]
        invariant forall j :: 0 <= j < x ==>
                    next'[y][j] == Successor(grid, rows, cols, y, j) &&
                    age[y, j] == NextAge(grid[y][j], next'[y][j], old(age[y, j]))
        invariant forall i, j :: 0 <= i < rows && 0 <= j < cols && (i != y || j >= x) ==>
                    age[i, j] == old(age[i, j])
      {
        var n := CountNeighbours(grid, rows, cols, y, x);
        var alive := if grid[y][x] then n == 2 || n == 3 else n == 3;
        next' := next'[y := next'[y][x := alive]];
        if alive {
          age[y, x] := if grid[y][x] then age[y, x] + 1 else 1;
        } else {
          age[y, x] := 0;
        }
      }
    }

    /** The loops of a generation: the new board is built row by row while
        the ages are rewritten in place. */
    method Generation() returns (next: seq<seq<bool>>)
      requires Valid()
      modifies age
      ensures Valid() && next == Evolve(grid, Nat(h), Nat(w))
      ensures forall y, x :: 0 <= y < Nat(h) && 0 <= x < Nat(w) ==>
                age[y, x] == NextAge(grid[y][x], next[y][x], old(age[y, x]))
    {
      var rows, cols := Nat(h), Nat(w);
      next := seq(rows, _ => seq(cols, _ => false));
      for y := 0 to rows
        invariant Valid() && IsBoard(next, rows, cols)
        invariant forall i, j :: 0 <= i < y && 0 <= j < cols ==>
                    next[i][j] == Successor(grid, rows, cols, i, j) &&
                    age[i, j] == NextAge(grid[i][j], next[i][j], old(age[i, j]))
        invariant forall i, j :: y <= i < rows && 0 <= j < cols ==> age[i, j] == old(age[i, j])
      {
        label Before:
        var next' := UpdateRow(next, y);
        forall i, j | 0 <= i <= y && 0 <= j < cols
          ensures next'[i][j] == Successor(grid, rows, cols, i, j)
          ensures age[i, j] == NextAge(grid[i][j], next'[i][j], old(age[i, j]))
        {
          if i < y {
            assert next'[i] == next[i] && age[i, j] == old@Before(age[i, j]);
          } else {
            assert old@Before(age[i, j]) == old(age[i, j]);
          }
        }
        next := next';
      }
      BoardsEqual(next, Evolve(grid, rows, cols), rows, cols);
    }

    /** One generation, after which the new board replaces the old one. */
    method Update()
      requires Valid()
      modifies this, age
      ensures Valid() && h == old(h) && w == old(w) && age == old(age)
      ensures grid == Evolve(old(grid), Nat(h), Nat(w))
      ensures forall y, x :: 0 <= y < Nat(h) && 0 <= x < Nat(w) ==>
                age[y, x] == NextAge(old(grid)[y][x], grid[y][x], old(age[y, x]))
      // hence a cell's age is 0 exactly when it is dead, and at least 1 when live
      ensures forall y, x :: 0 <= y < Nat(h) && 0 <= x < Nat(w) ==>
                (age[y, x] == 0 <==> !grid[y][x]) && (grid[y][x] ==> age[y, x] >= 1)
    {
      var next := Generation();
      grid := next;
    }
  }
}
