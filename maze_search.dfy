/** The recursive-backtracker maze generator: cells sit at odd coordinates of
    a grid of walls (1) and passages (0), and a depth-first search carves
    passages with an explicit stack. */
module MazeSearch {
  import opened Helpers

  type Cell = (int, int)

  /** Frames the finished maze is shown before it starts again. */
  const HoldTicks := 80

  /** The odd size `(n // 2) * 2 + 1` of the maze grid for a screen size `n`. */
  function MazeSize(n: int): (m: int)
    ensures m % 2 == 1
    ensures n >= 0 ==> m == n || m == n + 1
  {
    (n / 2) * 2 + 1
  }

  /** Carving steps per frame, `max(1, (mh * mw) // 200)`. */
  function CarveSteps(mh: int, mw: int): (s: int)
    ensures s >= 1
  {
    Max(1, (mh * mw) / 200)
  }

  /** The four cells two steps away, in the source's order: up, down, left, right. */
  function Candidates(c: Cell): seq<Cell> {
    [(c.0 - 2, c.1), (c.0 + 2, c.1), (c.0, c.1 - 2), (c.0, c.1 + 2)]
  }

  /** Inside the outer wall: `1 <= y < mh - 1` and `1 <= x < mw - 1`. */
  predicate Interior(c: Cell, mh: int, mw: int) {
    1 <= c.0 < mh - 1 && 1 <= c.1 < mw - 1
  }

  predicate Odd(c: Cell) {
    c.0 % 2 == 1 && c.1 % 2 == 1
  }

  /** The maze's cells: the interior points with both coordinates odd. */
  function Rooms(mh: int, mw: int): set<Cell> {
    set y, x | 1 <= y < mh - 1 && 1 <= x < mw - 1 && y % 2 == 1 && x % 2 == 1 :: (y, x)
  }

  /** The wall point midway between a cell and one two steps away. */
  function Between(c: Cell, n: Cell): Cell {
    ((c.0 + n.0) / 2, (c.1 + n.1) / 2)
  }

  /** The candidates that are inside the outer wall and not in `visited`, in order. */
  function Unvisited(cands: seq<Cell>, mh: int, mw: int, visited: set<Cell>): (r: seq<Cell>)
    ensures |r| <= |cands|
  {
    if cands == [] then []
    else
      var rest := Unvisited(cands[1..], mh, mw, visited);
      if Interior(cands[0], mh, mw) && cands[0] !in visited then [cands[0]] + rest else rest
  }

  /** `Unvisited` looks at one candidate at a time. */
  lemma UnvisitedFrom(cands: seq<Cell>, i: nat, mh: int, mw: int, visited: set<Cell>)
    requires i < |cands|
    ensures Unvisited(cands[i..], mh, mw, visited) ==
            (if Interior(cands[i], mh, mw) && cands[i] !in visited then [cands[i]] else []) +
            Unvisited(cands[i + 1..], mh, mw, visited)
  {
    assert cands[i..][0] == cands[i] && cands[i..][1..] == cands[i + 1..];
  }

  /** `Unvisited` keeps exactly the candidates inside the outer wall that
      are not visited. */
  lemma {:induction false} UnvisitedMembers(cands: seq<Cell>, mh: int, mw: int, visited: set<Cell>)
    ensures forall n :: n in Unvisited(cands, mh, mw, visited) <==>
      n in cands && Interior(n, mh, mw) && n !in visited
  {
    if cands != [] {
      UnvisitedMembers(cands[1..], mh, mw, visited);
      assert cands == [cands[0]] + cands[1..];
    }
  }

  /** Every in-range candidate of `c` is in `visited`. */
  ghost predicate Finished(c: Cell, mh: int, mw: int, visited: set<Cell>) {
    forall n {:trigger n in Candidates(c)} :: n in Candidates(c) && Interior(n, mh, mw) ==> n in visited
  }

  /** A set of rooms that holds (1, 1) and is closed under moves to in-range
      candidates holds every room: the search leaves no room unvisited. */
  lemma {:induction false} ClosedSetCoversRooms(s: set<Cell>, mh: int, mw: int)
    requires mh >= 3 && mw >= 3 && (1, 1) in s
    requires forall c :: c in s ==> Finished(c, mh, mw, s)
    ensures Rooms(mh, mw) <= s
  {
    forall c | c in Rooms(mh, mw) ensures c in s {
      Reach(s, mh, mw, c.0, c.1);
    }
  }

  lemma {:induction false} Reach(s: set<Cell>, mh: int, mw: int, y: int, x: int)
    requires mh >= 3 && mw >= 3 && (1, 1) in s
    requires forall c :: c in s ==> Finished(c, mh, mw, s)
    requires 1 <= y < mh - 1 && 1 <= x < mw - 1 && y % 2 == 1 && x % 2 == 1
    ensures (y, x) in s
    decreases y + x
  {
    if y > 1 {
      Reach(s, mh, mw, y - 2, x);
      assert (y, x) in Candidates((y - 2, x));
    } else if x > 1 {
      Reach(s, mh, mw, y, x - 2);
      assert (y, x) in Candidates((y, x - 2));
    }
  }

  /** The wall point between a room and one of its candidates is not a room,
      lies between them, and has exactly those two rooms on either side. */
  lemma WallBetween(c: Cell, n: Cell)
    requires Odd(c) && n in Candidates(c)
    ensures var m := Between(c, n);
            Odd(n) && !Odd(m) && m != n &&
            Min(c.0, n.0) <= m.0 <= Max(c.0, n.0) && Min(c.1, n.1) <= m.1 <= Max(c.1, n.1) &&
            (m.0 % 2 == 1 ==> {(m.0, m.1 - 1), (m.0, m.1 + 1)} == {c, n}) &&
            (m.0 % 2 != 1 ==> m.1 % 2 == 1 && {(m.0 - 1, m.1), (m.0 + 1, m.1)} == {c, n})
  {
    var m := Between(c, n);
    if n == (c.0 - 2, c.1) {
      assert m == (c.0 - 1, c.1);
    } else if n == (c.0 + 2, c.1) {
      assert m == (c.0 + 1, c.1);
    } else if n == (c.0, c.1 - 2) {
      assert m == (c.0, c.1 - 1);
    } else {
      assert m == (c.0, c.1 + 1);
    }
  }

  /** Why a grid point may be a passage: it is a visited room, or it has a
      visited room on each side, left and right or above and below. */
  ghost predicate Justified(p: Cell, visited: set<Cell>) {
    p in visited ||
    ((p.0, p.1 - 1) in visited && (p.0, p.1 + 1) in visited) ||
    ((p.0 - 1, p.1) in visited && (p.0 + 1, p.1) in visited)
  }

  /** Every passage is inside the grid and justified by the visited rooms. */
  ghost predicate PassagesJustified(mh: int, mw: int, passages: set<Cell>, visited: set<Cell>) {
    forall p {:trigger Justified(p, visited)} :: p in passages ==> 0 <= p.0 < mh && 0 <= p.1 < mw && Justified(p, visited)
  }

  /** The visited points are open rooms, the start room is among them, and
      there are `2 * |visited| - 1` passages: the visited rooms and one wall
      point for every room but the first. */
  ghost predicate VisitedCounted(mh: int, mw: int, passages: set<Cell>, visited: set<Cell>) {
    (forall c {:trigger c in Rooms(mh, mw)} :: c in visited ==> c in Rooms(mh, mw)) &&
    (forall c {:trigger c in passages} :: c in visited ==> c in passages) &&
    |passages| == Max(0, 2 * |visited| - 1) &&
    (mh >= 3 && mw >= 3 ==> (1, 1) in visited)
  }

  /** Two grid points side by side, in a row or in a column. */
  predicate Adjacent(a: Cell, b: Cell) {
    (a.0 == b.0 && (a.1 == b.1 + 1 || b.1 == a.1 + 1)) ||
    (a.1 == b.1 && (a.0 == b.0 + 1 || b.0 == a.0 + 1))
  }

  /** A walk over passages, each point adjacent to the one before. */
  ghost predicate IsPath(p: seq<Cell>, passages: set<Cell>) {
    |p| >= 1 &&
    (forall i :: 0 <= i < |p| ==> p[i] in passages) &&
    (forall i :: 0 < i < |p| ==> Adjacent(p[i - 1], p[i]))
  }

  /** `c` is reached from the start room (1, 1) by a walk over passages. */
  ghost predicate Reachable(passages: set<Cell>, c: Cell) {
    exists p :: IsPath(p, passages) && p[0] == (1, 1) && p[|p| - 1] == c
  }

  /** Every visited room is reached from the start room. */
  ghost predicate Connected(passages: set<Cell>, visited: set<Cell>) {
    forall c {:trigger Reachable(passages, c)} :: c in visited ==> Reachable(passages, c)
  }

  /** A walk that reaches `a` goes on to an adjacent passage `b`. */
  lemma ReachNext(passages: set<Cell>, a: Cell, b: Cell)
    requires Reachable(passages, a) && b in passages && Adjacent(a, b)
    ensures Reachable(passages, b)
  {
    var p :| IsPath(p, passages) && p[0] == (1, 1) && p[|p| - 1] == a;
    var q := p + [b];
    assert q[|q| - 1] == b && q[0] == (1, 1);
    assert IsPath(q, passages);
  }

  /** Opening more points keeps every walk. */
  lemma ReachGrows(passages: set<Cell>, more: set<Cell>, c: Cell)
    requires Reachable(passages, c) && passages <= more
    ensures Reachable(more, c)
  {
    var p :| IsPath(p, passages) && p[0] == (1, 1) && p[|p| - 1] == c;
    assert IsPath(p, more);
  }

  /** The wall point between a cell and one of its candidates is adjacent
      to both. */
  lemma BetweenAdjacent(c: Cell, n: Cell)
    requires n in Candidates(c)
    ensures Adjacent(c, Between(c, n)) && Adjacent(Between(c, n), n)
  {
    if n == (c.0 - 2, c.1) {
      assert Between(c, n) == (c.0 - 1, c.1);
    } else if n == (c.0 + 2, c.1) {
      assert Between(c, n) == (c.0 + 1, c.1);
    } else if n == (c.0, c.1 - 2) {
      assert Between(c, n) == (c.0, c.1 - 1);
    } else {
      assert Between(c, n) == (c.0, c.1 + 1);
    }
  }

  /** A carving step keeps every visited room reachable: the new room is
      reached through the top of the stack and the wall just opened. */
  lemma CarveConnected(passages: set<Cell>, visited: set<Cell>, c: Cell, n: Cell)
    requires Connected(passages, visited) && c in visited && n in Candidates(c)
    ensures Connected(passages + {Between(c, n), n}, visited + {n})
  {
    var m := Between(c, n);
    var more := passages + {m, n};
    forall r | r in visited + {n} ensures Reachable(more, r) {
      if r in visited {
        assert Reachable(passages, r);
        ReachGrows(passages, more, r);
      } else {
        assert Reachable(passages, c);
        ReachGrows(passages, more, c);
        BetweenAdjacent(c, n);
        ReachNext(more, c, m);
        ReachNext(more, m, n);
      }
    }
  }

  /** The stack holds distinct visited rooms, and every visited room off
      the stack has no unvisited candidate left. */
  ghost predicate StackSearched(mh: int, mw: int, visited: set<Cell>, stack: seq<Cell>) {
    (forall i :: 0 <= i < |stack| ==> stack[i] in visited) &&
    (forall i, j :: 0 <= i < j < |stack| ==> stack[i] != stack[j]) &&
    (forall c {:trigger Finished(c, mh, mw, visited)} :: c in visited && c !in stack ==> Finished(c, mh, mw, visited))
  }

  /** The invariant of the search, on values. */
  ghost predicate SearchInv(mh: int, mw: int, passages: set<Cell>, visited: set<Cell>, stack: seq<Cell>) {
    PassagesJustified(mh, mw, passages, visited) &&
    VisitedCounted(mh, mw, passages, visited) &&
    StackSearched(mh, mw, visited, stack) &&
    Connected(passages, visited)
  }

  /** What `reset` sets up satisfies the invariant. */
  lemma StartInv(mh: int, mw: int)
    requires mh % 2 == 1 && mw % 2 == 1
    ensures var start := 1 < mh && 1 < mw;
            var s: set<Cell> := if start then {(1, 1)} else {};
            SearchInv(mh, mw, s, s, if start then [(1, 1)] else [])
  {
    if 1 < mh && 1 < mw {
      assert (1, 1) in Rooms(mh, mw);
      assert IsPath([(1, 1)], {(1, 1)});
      assert Reachable({(1, 1)}, (1, 1));
    } else {
      assert Rooms(mh, mw) == {};
    }
  }

  /** A point with an even coordinate is not a room, so it is never visited. */
  lemma NotRoomNotVisited(mh: int, mw: int, passages: set<Cell>, visited: set<Cell>, p: Cell)
    requires VisitedCounted(mh, mw, passages, visited) && !Odd(p)
    ensures p !in visited
  {
    assert p !in Rooms(mh, mw);
  }

  /** The room and the wall a carving step opens were both walls. */
  lemma CarveOpensWalls(mh: int, mw: int, passages: set<Cell>, visited: set<Cell>, c: Cell, n: Cell)
    requires PassagesJustified(mh, mw, passages, visited) && VisitedCounted(mh, mw, passages, visited)
    requires Odd(c) && c in visited && n in Candidates(c) && Interior(c, mh, mw) && Interior(n, mh, mw)
    requires n !in visited
    ensures var m := Between(c, n);
            m !in passages && n !in passages && m != n && Interior(m, mh, mw) && !Odd(m)
  {
    var m := Between(c, n);
    WallBetween(c, n);
    NotRoomNotVisited(mh, mw, passages, visited, m);
    if m.0 % 2 == 1 {
      NotRoomNotVisited(mh, mw, passages, visited, (m.0 - 1, m.1));
    } else {
      NotRoomNotVisited(mh, mw, passages, visited, (m.0, m.1 - 1));
    }
    assert !Justified(m, visited);
    NotRoomNotVisited(mh, mw, passages, visited, (n.0, n.1 - 1));
    NotRoomNotVisited(mh, mw, passages, visited, (n.0 - 1, n.1));
    assert !Justified(n, visited);
  }

  lemma CarveJustified(mh: int, mw: int, passages: set<Cell>, visited: set<Cell>, c: Cell, n: Cell)
    requires PassagesJustified(mh, mw, passages, visited)
    requires Odd(c) && c in visited && n in Candidates(c) && Interior(n, mh, mw)
    requires Interior(Between(c, n), mh, mw)
    ensures PassagesJustified(mh, mw, passages + {Between(c, n), n}, visited + {n})
  {
    var m := Between(c, n);
    WallBetween(c, n);
    var passages', visited' := passages + {m, n}, visited + {n};
    forall p | p in passages' ensures 0 <= p.0 < mh && 0 <= p.1 < mw && Justified(p, visited') {
      if p in passages {
        assert Justified(p, visited);
      }
    }
  }

  lemma CarveCounted(mh: int, mw: int, passages: set<Cell>, visited: set<Cell>, m: Cell, n: Cell)
    requires VisitedCounted(mh, mw, passages, visited) && visited != {}
    requires m !in passages && n !in passages && m != n && n in Rooms(mh, mw) && n !in visited
    ensures VisitedCounted(mh, mw, passages + {m, n}, visited + {n})
  {
    assert |passages + {m, n}| == |passages| + 2;
    assert |visited + {n}| == |visited| + 1;
  }

  lemma CarveSearched(mh: int, mw: int, visited: set<Cell>, stack: seq<Cell>, n: Cell)
    requires StackSearched(mh, mw, visited, stack) && stack != [] && n !in visited
    ensures StackSearched(mh, mw, visited + {n}, stack + [n])
  {
    var visited', stack' := visited + {n}, stack + [n];
    forall c | c in visited' && c !in stack' ensures Finished(c, mh, mw, visited') {
      assert c in visited && c !in stack;
      assert Finished(c, mh, mw, visited);
    }
  }

  /** A carving step keeps the invariant: the new room and the wall before it
      were both walls, so the passages grow by exactly two. */
  lemma CarveInv(mh: int, mw: int, passages: set<Cell>, visited: set<Cell>, stack: seq<Cell>, n: Cell)
    requires SearchInv(mh, mw, passages, visited, stack) && stack != []
    requires n in Candidates(stack[|stack| - 1]) && Interior(n, mh, mw) && n !in visited
    ensures var m := Between(stack[|stack| - 1], n);
            m !in passages && n !in passages && m != n && Interior(m, mh, mw) &&
            SearchInv(mh, mw, passages + {m, n}, visited + {n}, stack + [n])
  {
    var c := stack[|stack| - 1];
    assert c in visited && c in Rooms(mh, mw);
    assert Odd(c) && Interior(c, mh, mw);
    WallBetween(c, n);
    assert n in Rooms(mh, mw);
    CarveOpensWalls(mh, mw, passages, visited, c, n);
    CarveJustified(mh, mw, passages, visited, c, n);
    CarveCounted(mh, mw, passages, visited, Between(c, n), n);
    CarveSearched(mh, mw, visited, stack, n);
    CarveConnected(passages, visited, c, n);
  }

  /** A pop keeps the invariant: the room popped has no unvisited candidate. */
  lemma BacktrackInv(mh: int, mw: int, passages: set<Cell>, visited: set<Cell>, stack: seq<Cell>)
    requires SearchInv(mh, mw, passages, visited, stack) && stack != []
    requires Unvisited(Candidates(stack[|stack| - 1]), mh, mw, visited) == []
    ensures SearchInv(mh, mw, passages, visited, stack[..|stack| - 1])
  {
    var t := stack[|stack| - 1];
    var rest := stack[..|stack| - 1];
    UnvisitedMembers(Candidates(t), mh, mw, visited);
    assert Finished(t, mh, mw, visited);
    forall c | c in visited && c !in rest ensures Finished(c, mh, mw, visited) {
      if c != t {
        assert c !in stack;
      }
    }
  }

  /** Under the invariant, the rooms not yet visited number
      `|Rooms| - |visited|`, so the measure below counts them. */
  lemma {:induction false} UnvisitedCount(mh: int, mw: int, passages: set<Cell>, visited: set<Cell>, stack: seq<Cell>)
    requires SearchInv(mh, mw, passages, visited, stack)
    ensures |Rooms(mh, mw) - visited| == |Rooms(mh, mw)| - |visited|
  {
    var rooms := Rooms(mh, mw);
    assert rooms == (rooms - visited) + visited;
    assert (rooms - visited) * visited == {};
  }

  /** Every open point is reached from the start room (1, 1). */
  ghost predicate OpenConnected(passages: set<Cell>) {
    forall p {:trigger Reachable(passages, p)} :: p in passages ==> Reachable(passages, p)
  }

  /** Under the invariant every passage is reached from the start room: a
      visited room directly, a wall point through a visited room beside it. */
  lemma {:induction false} PassagesConnected(mh: int, mw: int, passages: set<Cell>, visited: set<Cell>, stack: seq<Cell>)
    requires SearchInv(mh, mw, passages, visited, stack)
    ensures OpenConnected(passages)
  {
    forall p | p in passages ensures Reachable(passages, p) {
      assert Justified(p, visited);
      if p in visited {
        assert Reachable(passages, p);
      } else if (p.0, p.1 - 1) in visited && (p.0, p.1 + 1) in visited {
        assert Reachable(passages, (p.0, p.1 - 1));
        ReachNext(passages, (p.0, p.1 - 1), p);
      } else {
        assert Reachable(passages, (p.0 - 1, p.1));
        ReachNext(passages, (p.0 - 1, p.1), p);
      }
    }
  }

  /** When the stack is empty every room has been visited and every open
      point is reached from (1, 1). */
  lemma Complete(mh: int, mw: int, passages: set<Cell>, visited: set<Cell>)
    requires SearchInv(mh, mw, passages, visited, [])
    ensures visited == Rooms(mh, mw)
    ensures OpenConnected(passages)
  {
    PassagesConnected(mh, mw, passages, visited, []);
    if mh >= 3 && mw >= 3 {
      forall c | c in visited ensures Finished(c, mh, mw, visited) {
        assert c !in [];
      }
      ClosedSetCoversRooms(visited, mh, mw);
    } else {
      assert Rooms(mh, mw) == {};
    }
  }

  /** The finished maze opens the rooms and, besides them, exactly
      `rooms - 1` wall points. */
  lemma PassageCount(mh: int, mw: int, passages: set<Cell>, visited: set<Cell>)
    requires SearchInv(mh, mw, passages, visited, [])
    ensures |passages| == (if mh >= 3 && mw >= 3 then 2 * |Rooms(mh, mw)| - 1 else 0)
    ensures mh >= 3 && mw >= 3 ==> |passages - visited| == |Rooms(mh, mw)| - 1
  {
    Complete(mh, mw, passages, visited);
    assert passages == (passages - visited) + visited;
    assert (passages - visited) * visited == {};
  }

  /** The grid drawn from a set of passages: `Nat(mh)` rows of `Nat(mw)`
      points, a passage (0) at each point of `passages` and a wall (1)
      everywhere else. */
  function Picture(mh: int, mw: int, passages: set<Cell>): (g: seq<seq<int>>)
    ensures |g| == Nat(mh) && forall y :: 0 <= y < |g| ==> |g[y]| == Nat(mw)
  {
    seq(Nat(mh), y => seq(Nat(mw), x => if (y, x) in passages then 0 else 1))
  }

  /** The grid with the point `p` turned into a passage. */
  function Carved(grid: seq<seq<int>>, p: Cell): (g: seq<seq<int>>)
    requires 0 <= p.0 < |grid| && 0 <= p.1 < |grid[p.0]|
  {
    grid[p.0 := grid[p.0][p.1 := 0]]
  }

  /** Opening a point of the picture adds exactly that point to its passages. */
  lemma {:induction false} CarvedPicture(mh: int, mw: int, passages: set<Cell>, p: Cell)
    requires 0 <= p.0 < Nat(mh) && 0 <= p.1 < Nat(mw)
    ensures Carved(Picture(mh, mw, passages), p) == Picture(mh, mw, passages + {p})
  {
    var g, q := Carved(Picture(mh, mw, passages), p), Picture(mh, mw, passages + {p});
    assert |g| == |q|;
    forall y | 0 <= y < |g| ensures g[y] == q[y] {
      assert |g[y]| == |q[y]|;
      forall x | 0 <= x < |g[y]| ensures g[y][x] == q[y][x] {
        if (y, x) != p {
          assert g[y][x] == Picture(mh, mw, passages)[y][x];
        }
      }
    }
  }

  /** The grid `reset` builds: `Nat(mh)` rows of `Nat(mw)` walls. */
  function Walls(mh: int, mw: int): seq<seq<int>> {
    seq(Nat(mh), y => seq(Nat(mw), x => 1))
  }

  /** The walls are the picture of no passages, and opening the start room
      in them gives the picture of the start room alone. */
  lemma {:induction false} WallsPicture(mh: int, mw: int)
    ensures Walls(mh, mw) == Picture(mh, mw, {})
    ensures 1 < mh && 1 < mw ==> Carved(Walls(mh, mw), (1, 1)) == Picture(mh, mw, {(1, 1)})
  {
    var g, p := Walls(mh, mw), Picture(mh, mw, {});
    forall y | 0 <= y < |g| ensures g[y] == p[y] {
      assert |g[y]| == |p[y]|;
    }
    if 1 < mh && 1 < mw {
      CarvedPicture(mh, mw, {}, (1, 1));
      assert {} + {(1, 1)} == {(1, 1)};
    }
  }

  /** A carving step opens a wall point and then a room. */
  lemma CarvedTwice(mh: int, mw: int, passages: set<Cell>, m: Cell, n: Cell)
    requires 0 <= m.0 < Nat(mh) && 0 <= m.1 < Nat(mw) && 0 <= n.0 < Nat(mh) && 0 <= n.1 < Nat(mw)
    ensures Carved(Carved(Picture(mh, mw, passages), m), n) == Picture(mh, mw, passages + {m, n})
  {
    CarvedPicture(mh, mw, passages, m);
    CarvedPicture(mh, mw, passages + {m}, n);
    assert passages + {m} + {n} == passages + {m, n};
  }

  /** The open points (0) of a grid. */
  function OpenPoints(g: seq<seq<int>>): set<Cell> {
    set y, x | 0 <= y < |g| && 0 <= x < |g[y]| && g[y][x] == 0 :: (y, x)
  }

  /** Under the invariant the grid's open points are exactly its passages,
      so there are `2 * |visited| - 1` of them once the start room is open. */
  lemma {:induction false} OpenCount(mh: int, mw: int, passages: set<Cell>, visited: set<Cell>)
    requires PassagesJustified(mh, mw, passages, visited) && VisitedCounted(mh, mw, passages, visited)
    ensures OpenPoints(Picture(mh, mw, passages)) == passages
    ensures |OpenPoints(Picture(mh, mw, passages))| == Max(0, 2 * |visited| - 1)
  {
    var g := Picture(mh, mw, passages);
    forall p | p in passages ensures p in OpenPoints(g) {
      assert Justified(p, visited);
      assert g[p.0][p.1] == 0;
    }
  }

  /** Under the invariant every visited cell is a room (odd coordinates,
      inside the outer wall) and open, and so is every cell on the stack. */
  lemma {:induction false} VisitedOpen(mh: int, mw: int, passages: set<Cell>, visited: set<Cell>, stack: seq<Cell>)
    requires SearchInv(mh, mw, passages, visited, stack)
    ensures forall c :: c in visited ==>
      Odd(c) && Interior(c, mh, mw) && Picture(mh, mw, passages)[c.0][c.1] == 0
    ensures forall i :: 0 <= i < |stack| ==>
      stack[i] in visited && Interior(stack[i], mh, mw) &&
      Picture(mh, mw, passages)[stack[i].0][stack[i].1] == 0
  {
    forall c | c in visited
      ensures Odd(c) && Interior(c, mh, mw) && Picture(mh, mw, passages)[c.0][c.1] == 0
    {
      assert c in Rooms(mh, mw) && c in passages;
    }
    forall i | 0 <= i < |stack|
      ensures stack[i] in visited && Interior(stack[i], mh, mw) &&
              Picture(mh, mw, passages)[stack[i].0][stack[i].1] == 0
    {
      var c := stack[i];
      assert c in Rooms(mh, mw) && c in passages;
    }
  }

  /** The search state: the passage points, the visited rooms and the stack. */
  datatype Search = Search(passages: set<Cell>, visited: set<Cell>, stack: seq<Cell>)

  /** One carving step on the search state: with `nbrs` the unvisited
      candidates of the top of the stack, push `nbrs[choice % |nbrs|]` and
      open it and the wall before it, or pop when `nbrs` is empty. */
  function Advance(mh: int, mw: int, s: Search, choice: nat): Search
    requires s.stack != []
  {
    var top := s.stack[|s.stack| - 1];
    var nbrs := Unvisited(Candidates(top), mh, mw, s.visited);
    if nbrs == [] then s.(stack := s.stack[..|s.stack| - 1])
    else
      var n := nbrs[choice % |nbrs|];
      Search(s.passages + {Between(top, n), n}, s.visited + {n}, s.stack + [n])
  }

  /** The search state after the first `k` steps of a frame from `s`, step
      `i` using `choices[i]`; once a step finds the stack empty the frame
      stops and the state stays as it is. */
  function Carving(mh: int, mw: int, s: Search, choices: seq<nat>, k: nat): Search
    requires k <= |choices|
    decreases k
  {
    if k == 0 || s.stack == [] then s
    else Carving(mh, mw, Advance(mh, mw, s, choices[0]), choices[1..], k - 1)
  }

  /** A step that finds the stack non-empty advances the search. */
  lemma {:induction false} CarvingNext(mh: int, mw: int, s: Search, choices: seq<nat>, i: nat)
    requires i < |choices| && Carving(mh, mw, s, choices, i).stack != []
    ensures Carving(mh, mw, s, choices, i + 1) == Advance(mh, mw, Carving(mh, mw, s, choices, i), choices[i])
    decreases i
  {
    if i > 0 {
      CarvingNext(mh, mw, Advance(mh, mw, s, choices[0]), choices[1..], i - 1);
    }
  }

  /** The termination measure of the carving, twice the unvisited rooms
      plus the stack height: each step either visits a new room and pushes
      it, or pops. */
  function Progress(mh: int, mw: int, s: Search): int {
    2 * (|Rooms(mh, mw)| - |s.visited|) + |s.stack|
  }

  /** A step visits at most one new room and lowers the measure by one. */
  lemma AdvanceProgress(mh: int, mw: int, s: Search, choice: nat)
    requires s.stack != []
    ensures var t := Advance(mh, mw, s, choice);
            s.visited <= t.visited && |t.visited| <= |s.visited| + 1 &&
            Progress(mh, mw, t) == Progress(mh, mw, s) - 1
  {
    var top := s.stack[|s.stack| - 1];
    var nbrs := Unvisited(Candidates(top), mh, mw, s.visited);
    if nbrs != [] {
      UnvisitedMembers(Candidates(top), mh, mw, s.visited);
      var n := nbrs[choice % |nbrs|];
      assert n in nbrs && n !in s.visited;
      assert |s.visited + {n}| == |s.visited| + 1;
    }
  }

  /** A frame of `k` steps visits at most `k` new rooms and never raises the
      measure. It lowers it when the stack was not empty, and by exactly `k`
      when no step found the stack empty. */
  lemma {:induction false} CarvingProgress(mh: int, mw: int, s: Search, choices: seq<nat>, k: nat)
    requires k <= |choices|
    ensures var t := Carving(mh, mw, s, choices, k);
            s.visited <= t.visited && |t.visited| <= |s.visited| + k &&
            Progress(mh, mw, t) <= Progress(mh, mw, s)
    ensures k >= 1 && s.stack != [] ==>
            Progress(mh, mw, Carving(mh, mw, s, choices, k)) < Progress(mh, mw, s)
    ensures k >= 1 && Carving(mh, mw, s, choices, k - 1).stack != [] ==>
            Progress(mh, mw, Carving(mh, mw, s, choices, k)) + k == Progress(mh, mw, s)
    decreases k
  {
    if k > 0 && s.stack != [] {
      var s' := Advance(mh, mw, s, choices[0]);
      AdvanceProgress(mh, mw, s, choices[0]);
      CarvingProgress(mh, mw, s', choices[1..], k - 1);
      if k > 1 && Carving(mh, mw, s, choices, k - 1).stack != [] {
        assert Carving(mh, mw, s, choices, k - 1) == Carving(mh, mw, s', choices[1..], k - 2);
      }
    }
  }

  /** Once the stack is empty the frame's later steps change nothing. */
  lemma {:induction false} CarvingStops(mh: int, mw: int, s: Search, choices: seq<nat>, i: nat, j: nat)
    requires i <= j <= |choices| && Carving(mh, mw, s, choices, i).stack == []
    ensures Carving(mh, mw, s, choices, j) == Carving(mh, mw, s, choices, i)
    decreases i
  {
    if i > 0 && s.stack != [] {
      CarvingStops(mh, mw, Advance(mh, mw, s, choices[0]), choices[1..], i - 1, j - 1);
    }
  }

  /** The generator's invariant on values. */
  ghost predicate Consistent(h: int, w: int, mh: int, mw: int, grid: seq<seq<int>>, s: Search, done: bool, doneTick: int) {
    mh == MazeSize(h) && mw == MazeSize(w) &&
    grid == Picture(mh, mw, s.passages) && SearchInv(mh, mw, s.passages, s.visited, s.stack) &&
    (done ==> s.stack == []) &&
    0 <= doneTick <= HoldTicks && (!done ==> doneTick == 0)
  }

  /** What `reset` leaves satisfies the invariant: the walls, with the
      start room opened when the maze has room for it. */
  lemma StartConsistent(h: int, w: int, g: seq<seq<int>>, start: bool)
    requires start == (1 < MazeSize(h) && 1 < MazeSize(w))
    requires g == if start then Carved(Walls(MazeSize(h), MazeSize(w)), (1, 1)) else Walls(MazeSize(h), MazeSize(w))
    ensures var v: set<Cell> := if start then {(1, 1)} else {};
      g == Picture(MazeSize(h), MazeSize(w), v) &&
      Consistent(h, w, MazeSize(h), MazeSize(w), g, Search(v, v, if start then [(1, 1)] else []), false, 0)
  {
    WallsPicture(MazeSize(h), MazeSize(w));
    StartInv(MazeSize(h), MazeSize(w));
  }
}
