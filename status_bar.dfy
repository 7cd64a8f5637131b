/** The text of the status row drawn under the current animation. */
module StatusBar {
  import opened Helpers

  function DigitChar(d: nat): (c: char)
    requires d < 10
    ensures '0' <= c <= '9' && c as int - '0' as int == d
  {
    ('0' as int + d) as char
  }

  predicate IsDigits(s: string) {
    forall i :: 0 <= i < |s| ==> '0' <= s[i] <= '9'
  }

  /** Decimal digits of `n`, most significant first, as Python's `str` writes them. */
  function NatDigits(n: nat): (s: string)
    ensures 1 <= |s| && IsDigits(s)
    ensures n < 10 <==> |s| == 1
    ensures s[0] == '0' <==> n == 0
    decreases n
  {
    if n < 10 then [DigitChar(n)] else NatDigits(n / 10) + [DigitChar(n % 10)]
  }

  /** Python's `str(n)` for an integer. */
  function Decimal(n: int): (s: string)
    ensures 1 <= |s|
  {
    if n < 0 then "-" + NatDigits(-n) else NatDigits(n)
  }

  /** The number a string of decimal digits denotes. */
  function DigitsValue(s: string): nat
    requires IsDigits(s)
  {
    if s == [] then 0 else DigitsValue(s[..|s| - 1]) * 10 + (s[|s| - 1] as int - '0' as int)
  }

  /** Reads back what `Decimal` writes. */
  function DecimalValue(s: string): int
    requires s != [] && (s[0] == '-' ==> IsDigits(s[1..])) && (s[0] != '-' ==> IsDigits(s))
  {
    if s[0] == '-' then 0 - DigitsValue(s[1..]) else DigitsValue(s)
  }

  lemma {:induction false} NatDigitsRoundTrip(n: nat)
    ensures DigitsValue(NatDigits(n)) == n
    decreases n
  {
    if n >= 10 {
      var s := NatDigits(n);
      NatDigitsRoundTrip(n / 10);
      assert s[..|s| - 1] == NatDigits(n / 10);
    }
  }

  /** The index and count in the status bar can be read back exactly. */
  lemma DecimalRoundTrip(n: int)
    ensures var s := Decimal(n);
            (s[0] == '-' ==> IsDigits(s[1..])) && (s[0] != '-' ==> IsDigits(s)) &&
            DecimalValue(s) == n
  {
    var s := Decimal(n);
    if n < 0 {
      assert s[1..] == NatDigits(-n);
      NatDigitsRoundTrip(-n);
    } else {
      NatDigitsRoundTrip(n);
    }
  }

  /** The key help shown at the right of the status row (52 characters). */
  const Controls: string := " \U{2190}/\U{2192}:switch  1-0:jump  Space:pause  r:reset  q:quit "

  const PausedTag: string := "  [PAUSED]"

  /** The left part of the status row: position, name and pause marker. */
  function Bar(name: string, idx: int, total: int, paused: bool): string
  {
    " [" + Decimal(idx + 1) + "/" + Decimal(total) + "] " + name + (if paused then PausedTag else "")
  }

  function Spaces(n: nat): (s: string)
    ensures |s| == n && forall i :: 0 <= i < n ==> s[i] == ' '
  {
    seq(n, _ => ' ')
  }

  /** Whether the controls fit with at least one space between them and the bar. */
  predicate HasRoom(w: int, bar: string) {
    w - |bar| - |Controls| >= 1
  }

  /** The status row for a terminal of width `w`. It is exactly `w` characters,
      starts with the bar (cut at `w`), ends with the controls when they fit
      after a gap of spaces, and is otherwise the bar padded with spaces. */
  function StatusLine(w: nat, name: string, idx: int, total: int, paused: bool): (line: string)
    ensures |line| == w
    ensures var bar := Bar(name, idx, total, paused);
            var k := Min(w, |bar|);
            line[..k] == bar[..k]
    ensures var bar := Bar(name, idx, total, paused);
            HasRoom(w, bar) ==>
              line[w - |Controls|..] == Controls &&
              forall i :: |bar| <= i < w - |Controls| ==> line[i] == ' '
    ensures var bar := Bar(name, idx, total, paused);
            !HasRoom(w, bar) ==> forall i :: |bar| <= i < w ==> line[i] == ' '
  {
    var bar := Bar(name, idx, total, paused);
    var pad := w - |bar| - |Controls|;
    if pad < 1 then
      // the controls are dropped and the bar is padded, then cut, to `w`
      var full := bar + Spaces(Max(w - |bar|, 0));
      full[..w]
    else
      // `bar + pad spaces + controls` is already exactly `w` long
      bar + Spaces(pad) + Controls
  }

  lemma ControlsLength()
    ensures |Controls| == 52
  {
  }
}
