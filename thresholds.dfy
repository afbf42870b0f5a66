/**
 * Counting thresholds: every CO2 classification on the pages is a band
 * index that counts how many fixed thresholds a reading has reached, or
 * strictly exceeded.
 */
module Thresholds {

  ghost predicate Ascending(levels: seq<real>) {
    forall i, j :: 0 <= i <= j < |levels| ==> levels[i] <= levels[j]
  }

  /** The number of thresholds `t` in `levels` with `t <= c`. */
  function CountReached(levels: seq<real>, c: real): (n: nat)
    ensures n <= |levels|
  {
    if levels == [] then 0
    else CountReached(levels[..|levels| - 1], c) + (if levels[|levels| - 1] <= c then 1 else 0)
  }

  /** The number of thresholds `t` in `levels` with `t < c`. */
  function CountExceeded(levels: seq<real>, c: real): (n: nat)
    ensures n <= |levels|
  {
    if levels == [] then 0
    else CountExceeded(levels[..|levels| - 1], c) + (if levels[|levels| - 1] < c then 1 else 0)
  }

  /** A higher reading reaches at least as many thresholds. */
  lemma {:induction false} CountReachedMonotone(levels: seq<real>, a: real, b: real)
    requires a <= b
    ensures CountReached(levels, a) <= CountReached(levels, b)
  {
    if levels != [] {
      CountReachedMonotone(levels[..|levels| - 1], a, b);
    }
  }

  /** A higher reading exceeds at least as many thresholds. */
  lemma {:induction false} CountExceededMonotone(levels: seq<real>, a: real, b: real)
    requires a <= b
    ensures CountExceeded(levels, a) <= CountExceeded(levels, b)
  {
    if levels != [] {
      CountExceededMonotone(levels[..|levels| - 1], a, b);
    }
  }

  /** A reading below every threshold reaches none; one at or above all of them reaches all. */
  lemma {:induction false} CountReachedExtremes(levels: seq<real>, c: real)
    ensures (forall i :: 0 <= i < |levels| ==> c < levels[i]) ==> CountReached(levels, c) == 0
    ensures (forall i :: 0 <= i < |levels| ==> levels[i] <= c) ==> CountReached(levels, c) == |levels|
  {
    if levels != [] {
      CountReachedExtremes(levels[..|levels| - 1], c);
    }
  }

  /**
   * On ascending thresholds the count is a cut-off: threshold `i` is
   * reached exactly when `i` is below the count.
   */
  lemma {:induction false} ReachedIsPrefix(levels: seq<real>, c: real, i: int)
    requires Ascending(levels)
    requires 0 <= i < |levels|
    ensures i < CountReached(levels, c) <==> levels[i] <= c
  {
    var n := |levels| - 1;
    var init := levels[..n];
    if levels[n] <= c {
      forall k | 0 <= k < |levels| ensures levels[k] <= c {
        assert levels[k] <= levels[n];
      }
      CountReachedExtremes(levels, c);
    } else if i < n {
      assert Ascending(init);
      ReachedIsPrefix(init, c, i);
      assert init[i] == levels[i];
    }
  }

  /**
   * On ascending thresholds, a reading above exactly the first `k` of
   * them exceeds `k`.
   */
  lemma {:induction false} ExceededCutOff(levels: seq<real>, c: real, k: nat)
    requires k <= |levels|
    requires forall i :: 0 <= i < k ==> levels[i] < c
    requires forall i :: k <= i < |levels| ==> c <= levels[i]
    ensures CountExceeded(levels, c) == k
  {
    if levels != [] {
      var n := |levels| - 1;
      if k == |levels| {
        ExceededCutOff(levels[..n], c, n);
      } else {
        ExceededCutOff(levels[..n], c, k);
      }
    }
  }
}
