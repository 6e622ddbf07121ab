/**
 * Depth-increase counters (day-01). A report is a sequence of sonar depth
 * readings, each parsed as a `u32`. Part I counts the readings deeper than
 * the one before; Part II counts the three-reading windows whose sum is
 * larger than the previous window's.
 */
module SonarSweep {

  const U32_MAX: int := 0xFFFF_FFFF

  /** A reading as parsed by `str::parse::<u32>`. */
  type U32 = x: int | 0 <= x <= U32_MAX

  /** Number of positions `i >= 1` with `a[i] > a[i - 1]`. */
  function Increases(a: seq<int>): nat
  {
    if |a| < 2 then 0
    else Increases(a[..|a| - 1]) + (if a[|a| - 1] > a[|a| - 2] then 1 else 0)
  }

  /**
   * The window the source builds when it reads reading `i`:
   * `current + previous + before_previous`, where the two earlier
   * readings count as 0 before they exist.
   */
  function Window(a: seq<int>, i: nat): int
    requires i < |a|
  {
    a[i] + (if i >= 1 then a[i - 1] else 0) + (if i >= 2 then a[i - 2] else 0)
  }

  /** Every window the source sums fits in a `u32`. */
  predicate WindowsFitU32(a: seq<int>)
  {
    forall i :: 0 <= i < |a| ==> 0 <= Window(a, i) <= U32_MAX
  }

  /**
   * Number of positions `i >= 3` whose full window is larger than the
   * full window ending one position earlier.
   */
  function WindowIncreases(a: seq<int>): nat
  {
    if |a| < 4 then 0
    else WindowIncreases(a[..|a| - 1])
         + (if Window(a, |a| - 1) > Window(a, |a| - 2) then 1 else 0)
  }

  /** Reference count: positions `i >= 3` with `a[i] > a[i - 3]`. */
  function ShiftIncreases(a: seq<int>): nat
  {
    if |a| < 4 then 0
    else ShiftIncreases(a[..|a| - 1]) + (if a[|a| - 1] > a[|a| - 4] then 1 else 0)
  }

  /** Part I: the loop over the lines with `previous`, `init` and `count`. */
  method CountIncreases(readings: seq<U32>) returns (count: nat)
    ensures count == Increases(readings)
  {
    var previous: int := 0;
    var init := false;
    count := 0;
    var i := 0;
    while i < |readings|
      invariant 0 <= i <= |readings|
      invariant init == (i > 0)
      invariant i > 0 ==> previous == readings[i - 1]
      invariant count == Increases(readings[..i])
    {
      var current := readings[i];
      var increased := current > previous && init;
      if increased {
        count := count + 1;
      }
      assert readings[..i + 1][..i] == readings[..i];
      previous := current;
      init := true;
      i := i + 1;
    }
    assert readings[..i] == readings;
  }

  /**
   * Part II: the sliding-window loop. `buffer` counts readings seen and
   * saturates at 3; a window is counted only when `buffer == 3`.
   */
  method CountWindowIncreases(readings: seq<U32>) returns (count: nat)
    requires WindowsFitU32(readings)
    ensures count == WindowIncreases(readings)
  {
    var previous: int := 0;
    count := 0;
    var init := false;
    var beforePrevious: int := 0;
    var previousWindow: int := 0;
    var buffer := 0;
    var i := 0;
    while i < |readings|
      invariant 0 <= i <= |readings|
      invariant init == (i > 0)
      invariant buffer == if i < 3 then i else 3
      invariant previous == if i >= 1 then readings[i - 1] else 0
      invariant beforePrevious == if i >= 2 then readings[i - 2] else 0
      invariant previousWindow == if i >= 1 then Window(readings, i - 1) else 0
      invariant count == WindowIncreases(readings[..i])
    {
      var current := readings[i];
      var currentWindow := current + previous + beforePrevious;
      var increased := currentWindow > previousWindow && init;
      if increased && (buffer == 3 || !init) {
        count := count + 1;
      }
      ghost var next := readings[..i + 1];
      assert next[..i] == readings[..i];
      assert Window(next, i) == currentWindow;
      assert i >= 1 ==> Window(next, i - 1) == Window(readings, i - 1);
      beforePrevious := previous;
      previous := current;
      previousWindow := currentWindow;
      init := true;
      if buffer < 3 {
        buffer := buffer + 1;
      }
      i := i + 1;
    }
    assert readings[..i] == readings;
  }

  /** Part I counts at most one increase per reading after the first. */
  lemma {:induction false} IncreasesBound(a: seq<int>)
    ensures Increases(a) <= if |a| == 0 then 0 else |a| - 1
  {
    if |a| >= 2 {
      IncreasesBound(a[..|a| - 1]);
    }
  }

  /** Part I counts nothing exactly when the readings never increase. */
  lemma {:induction false} IncreasesZeroIffNonIncreasing(a: seq<int>)
    ensures Increases(a) == 0 <==> forall i :: 1 <= i < |a| ==> a[i] <= a[i - 1]
  {
    if |a| >= 2 {
      var p := a[..|a| - 1];
      IncreasesZeroIffNonIncreasing(p);
      assert forall i :: 0 <= i < |p| ==> p[i] == a[i];
    }
  }

  /**
   * Comparing two consecutive full windows is comparing the reading that
   * enters with the one that leaves: for `i >= 3` the test is `a[i] > a[i - 3]`.
   */
  lemma {:induction false} WindowIncreasesIsShift(a: seq<int>)
    ensures WindowIncreases(a) == ShiftIncreases(a)
  {
    if |a| >= 4 {
      var p := a[..|a| - 1];
      WindowIncreasesIsShift(p);
    }
  }

  /** Part II counts at most one increase per reading from the fourth on. */
  lemma {:induction false} WindowIncreasesBound(a: seq<int>)
    ensures WindowIncreases(a) <= if |a| < 3 then 0 else |a| - 3
  {
    if |a| >= 4 {
      WindowIncreasesBound(a[..|a| - 1]);
    }
  }
}
