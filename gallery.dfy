/** The gallery director: the main loop's key dispatch, resize broadcast and
    per-frame update/draw of the current animation. The ten animations are
    abstracted to their indices; what the loop asks of them is recorded as a
    list of actions. */
module Gallery {
  import opened Helpers
  import opened StatusBar

  /** Number of animations in the gallery's list. */
  const Count := 10

  const Names: seq<string> := [
    "Matrix Rain", "Starfield", "Fireworks", "Game of Life", "Plasma Waves",
    "Maze Generator", "Spirograph", "Raindrop Ripples", "Lissajous Weaver",
    "Voronoi Landscape"]

  /** A key event as returned by the terminal's input poll. */
  datatype Key =
    | NoKey                // the poll timed out
    | Char(c: char)        // an ordinary character key
    | ArrowLeft
    | ArrowRight
    | Resize               // the terminal reported a size change
    | OtherKey(code: int)  // any other key: `code` is none of the keys above, nor an ordinary character

  /** What one frame reads from the terminal: a key and the terminal size. */
  datatype Input = Input(key: Key, size: (nat, nat))

  /** The loop's own state: the current animation, the pause flag and the
      terminal size it last saw. */
  datatype Director = Director(current: int, paused: bool, height: nat, width: nat)

  /** A request the loop makes of the animations or the screen. */
  datatype Action =
    | ResetAnimation(index: int)            // `animations[index].reset()`
    | ResizeAll(height: int, width: int)    // `a.resize(height, width)` for every animation
    | UpdateAnimation(index: int)           // `animations[index].update()`
    | DrawFrame(index: int, row: int, columns: nat, paused: bool)  // draw, then the status line at `row`

  datatype Frame = Quit | Continue(next: Director, actions: seq<Action>)

  predicate Valid(d: Director) {
    0 <= d.current < Count
  }

  /** The loop's state before the first frame: the first animation, not
      paused, and the terminal size read at start-up. */
  function Start(size: (nat, nat)): (d: Director)
    ensures Valid(d) && d.current == 0 && !d.paused
    ensures (d.height, d.width) == size
  {
    Director(0, false, size.0, size.1)
  }

  /** The animation a digit key selects: '1'..'9' give 0..8 and '0' gives 9. */
  function DigitIndex(c: char): int
    requires '0' <= c <= '9'
  {
    if c == '0' then 9 else c as int - '1' as int
  }

  /** The digit key that selects animation `i`. */
  function DigitFor(i: int): char
    requires 0 <= i < Count
  {
    if i == 9 then '0' else ('1' as int + i) as char
  }

  lemma DigitKeysSelectEveryAnimation(i: int)
    requires 0 <= i < Count
    ensures '0' <= DigitFor(i) <= '9' && DigitIndex(DigitFor(i)) == i
  {
  }

  /** The animation that is current after `key`: the arrows step one place
      with wrap-around, the digit keys jump, every other key leaves it. */
  function Select(current: int, key: Key): (r: int)
    ensures 0 <= current < Count ==> 0 <= r < Count
    ensures !(key.ArrowLeft? || key.ArrowRight? || (key.Char? && '0' <= key.c <= '9')) ==> r == current
  {
    match key
    case ArrowRight => (current + 1) % Count
    case ArrowLeft => (current - 1) % Count
    case Char(c) => if '0' <= c <= '9' then DigitIndex(c) else current
    case _ => current
  }

  /** The `if/elif` chain on the key (the quit key is handled by `Step`). */
  function OnKey(d: Director, key: Key, size: (nat, nat)): (r: (Director, seq<Action>))
    requires key != Char('q')
    ensures r.0.current == Select(d.current, key)
    ensures r.0.paused == (d.paused != (key == Char(' ')))
    ensures (r.0.height, r.0.width) == (if key == Resize then size else (d.height, d.width))
    ensures r.1 == if key == Char('r') then [ResetAnimation(d.current)]
                   else if key == Resize then [ResizeAll(size.0 - 1, size.1)]
                   else []
  {
    match key
    case ArrowRight => (d.(current := (d.current + 1) % Count), [])
    case ArrowLeft => (d.(current := (d.current - 1) % Count), [])
    case Char(c) =>
      if '1' <= c <= '9' then (d.(current := DigitIndex(c)), [])
      else if c == '0' then (d.(current := DigitIndex(c)), [])
      else if c == ' ' then (d.(paused := !d.paused), [])
      else if c == 'r' then (d, [ResetAnimation(d.current)])
      else (d, [])
    case Resize => (d.(height := size.0, width := size.1), [ResizeAll(size.0 - 1, size.1)])
    case _ => (d, [])
  }

  /** The resize check made on every frame, whether or not a resize key came. */
  function CheckSize(d: Director, size: (nat, nat)): (Director, seq<Action>)
  {
    if size.0 != d.height || size.1 != d.width then
      (d.(height := size.0, width := size.1), [ResizeAll(size.0 - 1, size.1)])
    else
      (d, [])
  }

  /** One iteration of the main loop. */
  function Step(d: Director, input: Input): (f: Frame)
    requires Valid(d)
    ensures f.Quit? <==> input.key == Char('q')
    ensures f.Continue? ==> Valid(f.next)
    ensures f.Continue? ==> f.next.current == Select(d.current, input.key)
    ensures f.Continue? ==> f.next.paused == (if input.key == Char(' ') then !d.paused else d.paused)
    ensures f.Continue? ==> f.next.height == input.size.0 && f.next.width == input.size.1
  {
    if input.key == Char('q') then Quit
    else
      var (d1, keyActions) := OnKey(d, input.key, input.size);
      var (d2, sizeActions) := CheckSize(d1, input.size);
      var updates := if !d2.paused then [UpdateAnimation(d2.current)] else [];
      var draw := DrawFrame(d2.current, d2.height - 1, d2.width, d2.paused);
      Continue(d2, keyActions + sizeActions + updates + [draw])
  }

  /** 'r' resets the current animation and no other. */
  lemma ResetOnlyCurrent(d: Director, input: Input)
    requires Valid(d) && input.key != Char('q')
    ensures forall i :: ResetAnimation(i) in Step(d, input).actions <==>
                        input.key == Char('r') && i == d.current
  {
  }

  /** A resize reaches every animation, with the status row taken off the
      height, exactly when a resize key came or the size changed. */
  lemma ResizeBroadcast(d: Director, input: Input)
    requires Valid(d) && input.key != Char('q')
    ensures forall h, w :: ResizeAll(h, w) in Step(d, input).actions ==>
                           h == input.size.0 - 1 && w == input.size.1
    ensures (exists h, w :: ResizeAll(h, w) in Step(d, input).actions) <==>
            input.key == Resize || input.size != (d.height, d.width)
  {
    var f := Step(d, input);
    if input.key == Resize || input.size != (d.height, d.width) {
      assert ResizeAll(input.size.0 - 1, input.size.1) in f.actions;
    }
  }

  /** Only the current animation advances, and only while not paused; the
      others stay frozen. */
  lemma UpdateOnlyCurrent(d: Director, input: Input)
    requires Valid(d) && input.key != Char('q')
    ensures var f := Step(d, input);
            forall i :: UpdateAnimation(i) in f.actions <==> !f.next.paused && i == f.next.current
  {
  }

  /** Every frame ends by drawing the current animation and the status line
      on the terminal's last row. */
  lemma DrawsEveryFrame(d: Director, input: Input)
    requires Valid(d) && input.key != Char('q')
    ensures var f := Step(d, input);
            f.actions != [] &&
            f.actions[|f.actions| - 1] ==
              DrawFrame(f.next.current, input.size.0 - 1, input.size.1, f.next.paused)
  {
  }

  /** A frame makes its requests in the source's order, each at most once:
      the reset for 'r', then one resize when a resize key came or the size
      changed, then the update unless paused, and last the draw. */
  lemma FrameActions(d: Director, input: Input)
    requires Valid(d) && input.key != Char('q')
    ensures var f := Step(d, input);
            var (h, w) := input.size;
            f.actions ==
              (if input.key == Char('r') then [ResetAnimation(d.current)] else []) +
              (if input.key == Resize || (h, w) != (d.height, d.width) then [ResizeAll(h - 1, w)] else []) +
              (if !f.next.paused then [UpdateAnimation(f.next.current)] else []) +
              [DrawFrame(f.next.current, h - 1, w, f.next.paused)]
  {
  }

  /** The status line the frame's draw action puts on the screen. */
  function StatusText(a: Action): string
    requires a.DrawFrame? && 0 <= a.index < Count
  {
    StatusLine(a.columns, Names[a.index], a.index, Count, a.paused)
  }

  /** The status line of every frame is as wide as the terminal and begins
      with the position and name of the animation being shown. */
  lemma StatusShowsCurrent(d: Director, input: Input)
    requires Valid(d) && input.key != Char('q')
    ensures var f := Step(d, input);
            var t := StatusText(DrawFrame(f.next.current, input.size.0 - 1, input.size.1, f.next.paused));
            var bar := Bar(Names[f.next.current], f.next.current, Count, f.next.paused);
            var k := Min(input.size.1, |bar|);
            |t| == input.size.1 && t[..k] == bar[..k] &&
            f.actions[|f.actions| - 1] == DrawFrame(f.next.current, input.size.0 - 1, input.size.1, f.next.paused)
  {
    DrawsEveryFrame(d, input);
  }

  /** The result of running the loop over a sequence of frames. */
  datatype Outcome = Outcome(final: Director, log: seq<Action>, quit: bool)

  function Trace(d: Director, inputs: seq<Input>): (o: Outcome)
    requires Valid(d)
    ensures Valid(o.final)
    decreases |inputs|
  {
    if inputs == [] then Outcome(d, [], false)
    else
      match Step(d, inputs[0])
      case Quit => Outcome(d, [], true)
      case Continue(next, actions) =>
        var o := Trace(next, inputs[1..]);
        o.(log := actions + o.log)
  }

  /** The outcome `o` of the remaining frames, behind the actions `log`
      of the frames already run. */
  function After(log: seq<Action>, o: Outcome): Outcome {
    o.(log := log + o.log)
  }

  /** The main loop over the frames' inputs, until the quit key. */
  method Run(start: Director, inputs: seq<Input>) returns (o: Outcome)
    requires Valid(start)
    ensures o == Trace(start, inputs)
  {
    var d := start;
    var log: seq<Action> := [];
    var i := 0;
    while i < |inputs|
      invariant 0 <= i <= |inputs| && Valid(d)
      invariant Trace(start, inputs) == After(log, Trace(d, inputs[i..]))
    {
      assert inputs[i..][0] == inputs[i] && inputs[i..][1..] == inputs[i + 1..];
      var f := Step(d, inputs[i]);
      if f.Quit? {
        return Outcome(d, log, true);
      }
      log := log + f.actions;
      d := f.next;
      i := i + 1;
    }
    o := Outcome(d, log, false);
  }

  function Repeat(input: Input, n: nat): (s: seq<Input>)
    ensures |s| == n && forall i :: 0 <= i < n ==> s[i] == input
  {
    seq(n, _ => input)
  }

  lemma AddMod(a: int, b: int)
    ensures (a % Count + b) % Count == (a + b) % Count
  {
    var q := a / Count;
    assert a == q * Count + a % Count;
    assert a + b == (a % Count + b) + q * Count;
  }

  /** `n` presses of the right arrow move `n` places forward, wrapping around. */
  lemma {:induction false} RightPresses(d: Director, size: (nat, nat), n: nat)
    requires Valid(d)
    ensures Trace(d, Repeat(Input(ArrowRight, size), n)).final.current == (d.current + n) % Count
    decreases n
  {
    var s := Repeat(Input(ArrowRight, size), n);
    if n > 0 {
      var next := Step(d, s[0]).next;
      assert s[1..] == Repeat(Input(ArrowRight, size), n - 1);
      RightPresses(next, size, n - 1);
      assert next.current == (d.current + 1) % Count;
      AddMod(d.current + 1, n - 1);
    }
  }

  /** Pressing the right arrow once per animation comes back to the start. */
  lemma RightAroundTheGallery(d: Director, size: (nat, nat))
    requires Valid(d)
    ensures Trace(d, Repeat(Input(ArrowRight, size), Count)).final.current == d.current
  {
    assert (d.current + Count) % Count == d.current;
    RightPresses(d, size, Count);
  }

  lemma TraceTwo(d: Director, a: Input, b: Input)
    requires Valid(d) && a.key != Char('q') && b.key != Char('q')
    ensures var o := Trace(d, [a, b]);
            o.final == Step(Step(d, a).next, b).next && !o.quit
  {
    var s := [a, b];
    var d1 := Step(d, a).next;
    var d2 := Step(d1, b).next;
    assert s[1..] == [b] && s[1..][1..] == [];
    assert Trace(d1, s[1..]).final == d2 && !Trace(d1, s[1..]).quit;
  }

  lemma LeftAfterRight(c: int)
    requires 0 <= c < Count
    ensures Select(Select(c, ArrowRight), ArrowLeft) == c
  {
    if c == Count - 1 {
      assert Select(c, ArrowRight) == 0;
    } else {
      assert Select(c, ArrowRight) == c + 1;
    }
  }

  /** The left arrow undoes the right arrow. */
  lemma LeftUndoesRight(d: Director, size: (nat, nat))
    requires Valid(d)
    ensures var o := Trace(d, [Input(ArrowRight, size), Input(ArrowLeft, size)]);
            o.final.current == d.current && !o.quit
  {
    LeftAfterRight(d.current);
    TraceTwo(d, Input(ArrowRight, size), Input(ArrowLeft, size));
  }

  /** Two presses of space restore the pause flag. */
  lemma SpaceTwice(d: Director, size: (nat, nat))
    requires Valid(d)
    ensures var o := Trace(d, [Input(Char(' '), size), Input(Char(' '), size)]);
            o.final.paused == d.paused && o.final.current == d.current && !o.quit
  {
    TraceTwo(d, Input(Char(' '), size), Input(Char(' '), size));
  }
}
