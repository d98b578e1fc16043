/** The "Trending Now" window of the app: ten titles of the rating-ordered
    catalogue, starting at the session's offset taken modulo (n - 10). */
module Trending {
  import opened PyLists

  const WindowSize: int := 10
  const RefreshStep: int := 10

  /** Python's `a % b`: the remainder takes the sign of the divisor. */
  function PyMod(a: int, b: int): (r: int)
    requires b != 0
    ensures b > 0 ==> 0 <= r < b
    ensures b < 0 ==> b < r <= 0
  {
    if b > 0 then a % b
    else
      var m := a % (-b);
      if m == 0 then 0 else m + b
  }

  /** Python's `a // b`: the quotient rounded toward minus infinity. */
  function PyDiv(a: int, b: int): int
    requires b != 0
  {
    if b > 0 then a / b
    else
      var q := a / (-b);
      if a % (-b) == 0 then -q else -q - 1
  }

  /** Python's division identity: `a == b * (a // b) + a % b`. */
  lemma PyDivMod(a: int, b: int)
    requires b != 0
    ensures a == b * PyDiv(a, b) + PyMod(a, b)
  {
    if b < 0 {
      var c := -b;
      var q, m := a / c, a % c;
      assert a == c * q + m;
      if m == 0 {
        assert b * (-q) == c * q;
      } else {
        assert b * (-q - 1) == c * q + c;
      }
    }
  }

  /** The window, or the error raised when there are exactly ten titles. */
  datatype Window = Titles(start: int, titles: seq<string>) | ZeroDivision

  /** `start_idx = offset % (n - 10)` and `iloc[start_idx : start_idx + 10]`. */
  function TrendingWindow(ranked: seq<string>, offset: int): Window {
    var n := |ranked| - WindowSize;
    if n == 0 then ZeroDivision
    else
      var start := PyMod(offset, n);
      Titles(start, PySlice(ranked, start, start + WindowSize))
  }

  /** With more than ten titles the window holds exactly ten consecutive ones,
      never reaching the last title; with exactly ten the modulus is zero; with
      fewer the start is zero or negative and the window is no longer than the list. */
  lemma TrendingWindowSpec(ranked: seq<string>, offset: int)
    ensures |ranked| == WindowSize <==> TrendingWindow(ranked, offset).ZeroDivision?
    ensures |ranked| > WindowSize ==>
      var w := TrendingWindow(ranked, offset);
      0 <= w.start && w.start + WindowSize < |ranked| && w.titles == ranked[w.start..w.start + WindowSize] && |w.titles| == WindowSize
    ensures |ranked| < WindowSize ==>
      var w := TrendingWindow(ranked, offset);
      |ranked| - WindowSize < w.start <= 0 && |w.titles| <= |ranked|
  {
  }

  /** Refresh moves the window start ten places on, wrapping modulo n - 10. */
  lemma RefreshShiftsWindow(ranked: seq<string>, offset: int)
    requires |ranked| > WindowSize
    ensures TrendingWindow(ranked, offset + RefreshStep).start == PyMod(TrendingWindow(ranked, offset).start + RefreshStep, |ranked| - WindowSize)
  {
    var n := |ranked| - WindowSize;
    WindowStart(ranked, offset);
    WindowStart(ranked, offset + RefreshStep);
    var q, s := offset / n, offset % n;
    assert offset == n * q + s;
    var y := offset + RefreshStep;
    assert y == n * q + (s + RefreshStep);
    ModShift(q, n, s + RefreshStep);
    assert y % n == (s + RefreshStep) % n;
    assert PyMod(s + RefreshStep, n) == (s + RefreshStep) % n;
  }

  lemma WindowStart(ranked: seq<string>, offset: int)
    requires |ranked| > WindowSize
    ensures TrendingWindow(ranked, offset).start == offset % (|ranked| - WindowSize)
  {
  }

  lemma ModShift(q: int, n: int, x: int)
    requires n > 0
    ensures (n * q + x) % n == x % n
  {
    var y := n * q + x;
    assert x == n * (x / n) + x % n;
    assert y == n * (q + x / n) + x % n by { assert n * q + n * (x / n) == n * (q + x / n); }
    Unique(y, n, q + x / n, x % n);
  }

  /** Quotient and remainder by a positive n are unique. */
  lemma Unique(y: int, n: int, q: int, r: int)
    requires n > 0 && 0 <= r < n && y == n * q + r
    ensures y % n == r && y / n == q
  {
    var q0, r0 := y / n, y % n;
    assert y == n * q0 + r0;
    var d := q0 - q;
    assert n * d == r - r0 by { assert n * q0 - n * q == n * (q0 - q); }
    if d > 0 { MulAtLeast(n, d); } else if d < 0 { MulAtLeast(n, -d); }
  }

  lemma MulAtLeast(n: int, d: int)
    requires n > 0 && d >= 1
    ensures n * d >= n
  {
    assert n * d == n * (d - 1) + n;
    assert n * (d - 1) >= 0;
  }

  /** The session's `trending_offset`, 0 on first load. */
  class TrendingSession {
    var offset: int

    constructor()
      ensures offset == 0
    {
      offset := 0;
    }

    /** The Refresh button. */
    method Refresh()
      modifies this
      ensures offset == old(offset) + RefreshStep
    {
      offset := offset + RefreshStep;
    }

    /** The titles shown for the current offset. */
    function Shown(ranked: seq<string>): Window
      reads this
    {
      TrendingWindow(ranked, offset)
    }
  }
}
