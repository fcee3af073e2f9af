/** The double-press detector behind the double-Enter and double-Escape
    shortcuts (ExtraNav/nav-ux.js, `makeDoublePress`). The clock
    (`Date.now()`) becomes the timestamp argument of each press. */
module DoublePress {

  class Detector {
    /** `thresholdMs`. */
    const threshold: int
    /** The time of the last press that was not part of a double, or 0. */
    var last: int

    constructor (thresholdMs: int)
      ensures threshold == thresholdMs && last == 0
    {
      threshold := thresholdMs;
      last := 0;
    }

    /** `isDouble()` at time `t`: a hit when at most `threshold` has passed
        since the recorded press; a hit clears the record, a miss records
        `t`. */
    method IsDouble(t: int) returns (hit: bool)
      modifies this
      ensures hit <==> t - old(last) <= threshold
      ensures last == if hit then 0 else t
    {
      hit := t - last <= threshold;
      last := if hit then 0 else t;
    }

    /** Feeding presses at the given times, one by one. */
    method PressAll(times: seq<int>) returns (hits: seq<bool>)
      modifies this
      ensures hits == Hits(times, old(last), threshold)
      ensures last == LastAfter(times, old(last), threshold)
    {
      hits := [];
      var k := 0;
      while k < |times|
        invariant 0 <= k <= |times|
        invariant Hits(times, old(last), threshold) == hits + Hits(times[k..], last, threshold)
        invariant LastAfter(times, old(last), threshold) == LastAfter(times[k..], last, threshold)
      {
        assert times[k..][1..] == times[k + 1..];
        var h := IsDouble(times[k]);
        hits := hits + [h];
        k := k + 1;
      }
    }
  }

  /** What `isDouble` reports for each press of a run, starting from the
      recorded time `last`. */
  function Hits(times: seq<int>, last: int, threshold: int): (r: seq<bool>)
    ensures |r| == |times|
    ensures times != [] ==> (r[0] <==> times[0] - last <= threshold)
  {
    if times == [] then []
    else
      var hit := times[0] - last <= threshold;
      [hit] + Hits(times[1..], if hit then 0 else times[0], threshold)
  }

  /** The recorded time after a run. */
  function LastAfter(times: seq<int>, last: int, threshold: int): int
  {
    if times == [] then last
    else
      var hit := times[0] - last <= threshold;
      LastAfter(times[1..], if hit then 0 else times[0], threshold)
  }

  predicate NoTwoInARow(r: seq<bool>)
  {
    forall k :: 0 <= k < |r| - 1 ==> !(r[k] && r[k + 1])
  }

  /** Once the clock is past the threshold, a hit is never followed by
      another hit: a third quick press starts a new pair rather than
      counting as a second double. */
  lemma {:induction false} NoHitAfterHit(times: seq<int>, last: int, threshold: int)
    requires forall k :: 0 <= k < |times| ==> times[k] > threshold
    ensures NoTwoInARow(Hits(times, last, threshold))
  {
    if times != [] {
      var hit := times[0] - last <= threshold;
      var next := if hit then 0 else times[0];
      NoHitAfterHit(times[1..], next, threshold);
      var r := Hits(times, last, threshold);
      var r' := Hits(times[1..], next, threshold);
      assert r[1..] == r';
      forall k | 0 <= k < |times| - 1
        ensures !(r[k] && r[k + 1])
      {
        if k == 0 {
          assert times[1..][0] == times[1];
          assert r[1] == r'[0];
          assert hit ==> next == 0 && !r'[0];
        } else {
          assert r[k] == r'[k - 1] && r[k + 1] == r'[k];
        }
      }
    }
  }

  /** Two presses no further apart than the threshold form a double when
      the first was not itself the end of a double. */
  lemma PairIsDouble(t1: int, t2: int, last: int, threshold: int)
    requires t1 - last > threshold && 0 <= t2 - t1 <= threshold
    ensures Hits([t1, t2], last, threshold) == [false, true]
  {
    assert [t1, t2][1..] == [t2];
  }
}
