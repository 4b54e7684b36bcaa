/**
 * The test helper that records the busy intervals of one processor (src/test/java/Processor.java):
 * two parallel lists of start and end times.
 */
module Processors {

  /** Some recorded interval [starts[i], ends[i]) overlaps [startTime, startTime + duration). */
  predicate Occupied(starts: seq<int>, ends: seq<int>, startTime: int, duration: int)
    requires |starts| == |ends|
  {
    exists i :: 0 <= i < |starts| && startTime < ends[i] && startTime + duration > starts[i]
  }

  class Processor {
    var startTimes: seq<int>
    var endTimes: seq<int>

    ghost predicate Valid()
      reads this
    {
      |startTimes| == |endTimes|
    }

    constructor ()
      ensures Valid() && startTimes == [] && endTimes == []
    {
      startTimes := [];
      endTimes := [];
    }

    /** Whether the processor is busy at some instant of [startTime, startTime + duration). */
    method IsOccupied(startTime: int, duration: int) returns (occupied: bool)
      requires Valid()
      ensures occupied <==> Occupied(startTimes, endTimes, startTime, duration)
    {
      var finishTime := startTime + duration;
      var i := 0;
      while i < |startTimes|
        invariant 0 <= i <= |startTimes|
        invariant forall k :: 0 <= k < i ==> !(startTime < endTimes[k] && finishTime > startTimes[k])
      {
        var occupiedStartTime := startTimes[i];
        var occupiedEndTime := endTimes[i];
        if startTime < occupiedEndTime && finishTime > occupiedStartTime {
          return true;
        }
        i := i + 1;
      }
      return false;
    }

    /** Records the interval [startTime, startTime + duration). */
    method Add(startTime: int, duration: int)
      requires Valid()
      modifies this
      ensures Valid()
      ensures startTimes == old(startTimes) + [startTime]
      ensures endTimes == old(endTimes) + [startTime + duration]
    {
      startTimes := startTimes + [startTime];
      endTimes := endTimes + [startTime + duration];
    }
  }

  /** A processor with nothing recorded is never occupied. */
  lemma EmptyNeverOccupied(startTime: int, duration: int)
    ensures !Occupied([], [], startTime, duration)
  {
  }

  /** An interval that only touches a recorded one, at either end, does not occupy it. */
  lemma TouchingNotOccupied(a: int, b: int, startTime: int, duration: int)
    requires startTime == b || startTime + duration == a
    requires a <= b && duration >= 0
    ensures !Occupied([a], [b], startTime, duration)
  {
  }

  /** After recording [s, s + d) with d > 0, asking about the same interval answers occupied. */
  lemma AddedIsOccupied(starts: seq<int>, ends: seq<int>, s: int, d: int)
    requires |starts| == |ends| && d > 0
    ensures Occupied(starts + [s], ends + [s + d], s, d)
  {
    var i := |starts|;
    assert (starts + [s])[i] == s && (ends + [s + d])[i] == s + d;
  }

  /** Occupation by a sequence of intervals is occupation by one of its parts. */
  lemma OccupiedAppend(starts: seq<int>, ends: seq<int>, s: int, e: int, startTime: int, duration: int)
    requires |starts| == |ends|
    ensures Occupied(starts + [s], ends + [e], startTime, duration) <==>
            Occupied(starts, ends, startTime, duration) || (startTime < e && startTime + duration > s)
  {
    var s', e' := starts + [s], ends + [e];
    if Occupied(s', e', startTime, duration) {
      var i :| 0 <= i < |s'| && startTime < e'[i] && startTime + duration > s'[i];
      if i < |starts| {
        assert s'[i] == starts[i] && e'[i] == ends[i];
      }
    }
    if Occupied(starts, ends, startTime, duration) {
      var i :| 0 <= i < |starts| && startTime < ends[i] && startTime + duration > starts[i];
      assert s'[i] == starts[i] && e'[i] == ends[i];
    }
    if startTime < e && startTime + duration > s {
      assert s'[|starts|] == s && e'[|starts|] == e;
    }
  }
}
