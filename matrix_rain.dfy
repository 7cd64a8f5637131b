/** The drop bookkeeping of the Matrix Rain animation: every column may
    start a falling drop, drops fall by their speed each frame, a drop whose
    tail has passed the bottom row is recycled with fresh random values, and
    new drops are spawned while there are fewer drops than columns.

    Each `random.randint(lo, hi)` is a raw number `r` mapped to `Pick(lo,
    hi, r)`, which reaches every value of the range; each `random.random() <
    p` test is a boolean coin. `randint` raises `ValueError` on an empty range;
    this is the `raised` result of the methods. */
module MatrixRain {
  /** One drop: column, row of its head, rows per frame, trail length. */
  datatype Drop = Drop(x: int, y: int, speed: int, length: int)

  /** The raw random numbers a drop is drawn from (`x` is ignored by
      `reset`, which uses the column itself). */
  datatype Draw = Draw(x: nat, y: nat, speed: nat, length: nat)

  /** `random.randint(lo, hi)` for the raw number `r`. */
  function Pick(lo: int, hi: int, r: nat): (v: int)
    requires lo <= hi
    ensures lo <= v <= hi
  {
    lo + r % (hi - lo + 1)
  }

  /** Every value of the range is drawn by some raw number. */
  lemma PickCovers(lo: int, hi: int, v: int)
    requires lo <= v <= hi
    ensures Pick(lo, hi, v - lo) == v
  {
    assert 0 <= v - lo < hi - lo + 1;
  }

  /** The bounds every drop keeps: a column of the screen, a speed of 1 to
      3, a length of 5 to `h // 2`, a head no higher than `-h` and a tail
      not yet past the bottom row `h`. */
  ghost predicate DropOk(d: Drop, h: int, w: int) {
    0 <= d.x < w && 1 <= d.speed <= 3 && 5 <= d.length <= h / 2 &&
    -h <= d.y && d.y - d.length <= h
  }

  /** `reset` raises when some column among the first `n` draws a drop but
      `randint(5, h // 2)` (or `randint(-h, 0)`) has an empty range. */
  ghost predicate Raises(h: int, coins: seq<bool>, n: nat)
    requires n <= |coins|
  {
    h < 10 && exists x :: 0 <= x < n && coins[x]
  }

  /** The drop `reset` starts in column `x`. */
  function Sprout(x: int, h: int, r: Draw): (d: Drop)
    requires h >= 10
    ensures d.x == x && -h <= d.y <= 0 && 1 <= d.speed <= 3 && 5 <= d.length <= h / 2
  {
    Drop(x, Pick(-h, 0, r.y), Pick(1, 3, r.speed), Pick(5, h / 2, r.length))
  }

  /** The drops `reset` has made after the first `n` columns. */
  function Sown(h: int, coins: seq<bool>, draws: seq<Draw>, n: nat): (ds: seq<Drop>)
    requires n <= |coins| && n <= |draws| && !Raises(h, coins, n)
    ensures |ds| <= n
  {
    if n == 0 then []
    else
      assert !Raises(h, coins, n - 1) by {
        if h < 10 {
          forall x | 0 <= x < n - 1 ensures !coins[x] {
            assert 0 <= x < n && !coins[x];
          }
        }
      }
      Sown(h, coins, draws, n - 1) +
      (if coins[n - 1] then [Sprout(n - 1, h, draws[n - 1])] else [])
  }

  /** A column-by-column prefix of the coins that raises is part of one that
      raises. */
  lemma PrefixRaises(h: int, coins: seq<bool>, m: nat, n: nat)
    requires m <= n <= |coins| && !Raises(h, coins, n)
    ensures !Raises(h, coins, m)
  {
    if h < 10 {
      forall x | 0 <= x < m ensures !coins[x] {
        assert 0 <= x < n && !coins[x];
      }
    }
  }

  /** Every drop within the bounds, head at or above the top row, in a
      column below `n`. */
  ghost predicate Bounded(ds: seq<Drop>, h: int, n: int) {
    forall i :: 0 <= i < |ds| ==> DropOk(ds[i], h, n) && ds[i].y <= 0
  }

  /** Columns strictly increasing along the list, so no two drops share one. */
  ghost predicate Increasing(ds: seq<Drop>) {
    forall i, j :: 0 <= i < j < |ds| ==> ds[i].x < ds[j].x
  }

  ghost predicate HasDropIn(ds: seq<Drop>, x: int) {
    exists i :: 0 <= i < |ds| && ds[i].x == x
  }

  /** `reset` keeps every drop within the bounds. */
  lemma {:induction false} SownBounds(h: int, coins: seq<bool>, draws: seq<Draw>, n: nat)
    requires n <= |coins| && n <= |draws| && !Raises(h, coins, n)
    ensures Bounded(Sown(h, coins, draws, n), h, n)
  {
    if n > 0 {
      PrefixRaises(h, coins, n - 1, n);
      SownBounds(h, coins, draws, n - 1);
      var prev := Sown(h, coins, draws, n - 1);
      var ds := Sown(h, coins, draws, n);
      forall i | 0 <= i < |ds| ensures DropOk(ds[i], h, n) && ds[i].y <= 0 {
        if i < |prev| {
          assert ds[i] == prev[i];
          assert DropOk(prev[i], h, n - 1);
        }
      }
    }
  }

  /** `reset` makes its drops in strictly increasing columns. */
  lemma {:induction false} SownIncreasing(h: int, coins: seq<bool>, draws: seq<Draw>, n: nat)
    requires n <= |coins| && n <= |draws| && !Raises(h, coins, n)
    ensures Increasing(Sown(h, coins, draws, n))
  {
    if n > 0 {
      PrefixRaises(h, coins, n - 1, n);
      SownIncreasing(h, coins, draws, n - 1);
      SownBounds(h, coins, draws, n - 1);
      var prev := Sown(h, coins, draws, n - 1);
      var ds := Sown(h, coins, draws, n);
      forall i, j | 0 <= i < j < |ds| ensures ds[i].x < ds[j].x {
        assert ds[i] == prev[i];
        if j < |prev| {
          assert ds[j] == prev[j];
        } else {
          assert DropOk(prev[i], h, n - 1);
        }
      }
    }
  }

  /** `reset` makes a drop in column `x` exactly when the coin of column
      `x` came up. */
  lemma {:induction false} SownHits(h: int, coins: seq<bool>, draws: seq<Draw>, n: nat, x: int)
    requires n <= |coins| && n <= |draws| && !Raises(h, coins, n) && 0 <= x < n
    ensures coins[x] <==> HasDropIn(Sown(h, coins, draws, n), x)
  {
    PrefixRaises(h, coins, n - 1, n);
    var prev := Sown(h, coins, draws, n - 1);
    var ds := Sown(h, coins, draws, n);
    if x < n - 1 {
      SownHits(h, coins, draws, n - 1, x);
      if coins[x] {
        var i :| 0 <= i < |prev| && prev[i].x == x;
        assert ds[i] == prev[i];
      }
      if i :| 0 <= i < |ds| && ds[i].x == x {
        if i < |prev| {
          assert ds[i] == prev[i];
        }
      }
    } else if coins[x] {
      assert ds[|prev|].x == x;
    } else {
      SownBounds(h, coins, draws, n - 1);
      forall i | 0 <= i < |ds| ensures ds[i].x != x {
        assert ds[i] == prev[i];
        assert DropOk(prev[i], h, n - 1);
      }
    }
  }

  /** One frame for one drop: it falls by its speed, and once its tail is
      past the bottom row it is recycled with a new column, a head row in
      `[(-h) // 2, 0]`, a new speed and a new length. */
  function Fall(d: Drop, h: int, w: int, r: Draw): (e: Drop)
    requires DropOk(d, h, w)
    ensures DropOk(e, h, w)
    ensures e == d.(y := d.y + d.speed) <==> d.y + d.speed - d.length <= h
    ensures d.y + d.speed - d.length > h ==> (-h) / 2 <= e.y <= 0
  {
    var y := d.y + d.speed;
    if y - d.length > h then
      Drop(Pick(0, w - 1, r.x), Pick((-h) / 2, 0, r.y), Pick(1, 3, r.speed), Pick(5, h / 2, r.length))
    else
      d.(y := y)
  }

  /** A newly spawned drop: any column, head row in `[-10, 0]`. */
  function Spawned(h: int, w: int, r: Draw): (d: Drop)
    requires h >= 10 && w >= 1
    ensures DropOk(d, h, w) && -10 <= d.y <= 0
  {
    Drop(Pick(0, w - 1, r.x), Pick(-10, 0, r.y), Pick(1, 3, r.speed), Pick(5, h / 2, r.length))
  }

  class Rain {
    var h: int
    var w: nat
    var drops: seq<Drop>

    /** At most one drop per column on average: never more drops than
        columns, and every drop within bounds. */
    ghost predicate Valid()
      reads this
    {
      |drops| <= w && forall i :: 0 <= i < |drops| ==> DropOk(drops[i], h, w)
    }

    constructor(h: int, w: nat, coins: seq<bool>, draws: seq<Draw>)
      requires |coins| >= w && |draws| >= w && !Raises(h, coins, w)
      ensures Valid() && this.h == h && this.w == w
      ensures drops == Sown(h, coins, draws, w)
    {
      this.h, this.w := h, w;
      new;
      var raised := Reset(coins, draws);
    }

    /** Column `x` starts a drop when `coins[x]` (the `random() < 0.4`
        test), drawn from `draws[x]`. */
    method Reset(coins: seq<bool>, draws: seq<Draw>) returns (raised: bool)
      requires |coins| >= w && |draws| >= w
      modifies this
      ensures Valid() && h == old(h) && w == old(w)
      ensures raised <==> Raises(h, coins, w)
      ensures !raised ==> drops == Sown(h, coins, draws, w) && Increasing(drops)
      ensures raised ==> drops == []
    {
      drops := [];
      for x := 0 to w
        invariant h == old(h) && w == old(w)
        invariant !Raises(h, coins, x) && drops == Sown(h, coins, draws, x)
        invariant forall i :: 0 <= i < |drops| ==> DropOk(drops[i], h, w)
      {
        SownBounds(h, coins, draws, x);
        if coins[x] {
          if h < 10 {
            assert Raises(h, coins, w) by { assert 0 <= x < w && coins[x]; }
            drops := [];
            return true;
          }
          drops := drops + [Sprout(x, h, draws[x])];
        }
        assert !Raises(h, coins, x + 1) by {
          if h < 10 {
            forall k | 0 <= k < x + 1 ensures !coins[k] {
              if k < x { assert 0 <= k < x && !coins[k]; }
            }
          }
        }
      }
      SownIncreasing(h, coins, draws, w);
      return false;
    }

    method Resize(h: int, w: nat, coins: seq<bool>, draws: seq<Draw>) returns (raised: bool)
      requires |coins| >= w && |draws| >= w
      modifies this
      ensures Valid() && this.h == h && this.w == w
      ensures raised <==> Raises(h, coins, w)
      ensures !raised ==> drops == Sown(h, coins, draws, w)
      ensures raised ==> drops == []
    {
      this.h, this.w := h, w;
      raised := Reset(coins, draws);
    }

    /** One frame: drop `i` falls using `redraws[i]`; then, when `spawn`
        (the `random() < 0.3` test) and there are fewer drops than columns,
        a drop drawn from `born` is appended, which raises when `h < 10`. */
    method Update(redraws: seq<Draw>, spawn: bool, born: Draw) returns (raised: bool)
      requires Valid() && |redraws| >= |drops|
      modifies this
      ensures Valid() && h == old(h) && w == old(w)
      ensures raised <==> spawn && |old(drops)| < w && h < 10
      ensures |drops| == |old(drops)| + (if spawn && |old(drops)| < w && !raised then 1 else 0)
      ensures forall i :: 0 <= i < |old(drops)| ==> drops[i] == Fall(old(drops)[i], h, w, redraws[i])
      ensures |drops| > |old(drops)| ==> drops[|old(drops)|] == Spawned(h, w, born)
    {
      for i := 0 to |drops|
        invariant h == old(h) && w == old(w)
        invariant |drops| == |old(drops)| && Valid()
        invariant forall k :: 0 <= k < i ==> drops[k] == Fall(old(drops)[k], h, w, redraws[k])
        invariant forall k :: i <= k < |drops| ==> drops[k] == old(drops)[k]
      {
        drops := drops[i := Fall(drops[i], h, w, redraws[i])];
      }
      if spawn && |drops| < w {
        if h < 10 {
          return true;
        }
        drops := drops + [Spawned(h, w, born)];
      }
      return false;
    }
  }
}
