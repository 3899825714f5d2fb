/**
 * The buffer's health classification and its statistics record.
 */
module Occupancy {

  /** How full the buffer is, for pacing the decoder. */
  datatype BufferState = Starving | Low | Healthy | Full

  /**
   * Statistics exposed to the host: current occupancy, capacity, and the
   * cumulative counts of dropped, decoded and displayed frames.
   */
  datatype BufferStats = BufferStats(
    frameCount: nat,
    capacity: nat,
    framesDropped: nat,
    framesDecoded: nat,
    framesDisplayed: nat,
    state: BufferState)

  /**
   * The classification of `count` buffered frames against the low-water mark
   * and the capacity; the tests are made in the order empty, low, full.
   */
  function Classify(count: nat, lowWaterMark: nat, capacity: nat): (st: BufferState)
    ensures st == Starving <==> count == 0
    ensures st == Low <==> 0 < count < lowWaterMark
    ensures st == Full <==> 0 < count && lowWaterMark <= count && capacity <= count
    ensures st == Healthy <==> 0 < count && lowWaterMark <= count < capacity
  {
    if count == 0 then Starving
    else if count < lowWaterMark then Low
    else if count >= capacity then Full
    else Healthy
  }

  /** The low-water mark is a quarter of the capacity, rounded down. */
  function LowWaterMark(capacity: nat): (m: nat)
    ensures 4 * m <= capacity < 4 * m + 4
  {
    capacity / 4
  }

  /** The target occupancy is three quarters of the capacity, rounded down. */
  function TargetSize(capacity: nat): (m: nat)
    ensures 4 * m <= 3 * capacity < 4 * m + 4
  {
    (capacity * 3) / 4
  }

  /**
   * With the buffer's own marks, the classification is the documented state
   * machine: empty, below a quarter, at or above capacity, in between.
   */
  lemma ClassifyWithMarks(count: nat, capacity: nat)
    ensures var st := Classify(count, LowWaterMark(capacity), capacity);
      (count == 0 ==> st == Starving) &&
      (0 < count < LowWaterMark(capacity) ==> st == Low) &&
      (0 < count && capacity <= count ==> st == Full) &&
      (0 < count && LowWaterMark(capacity) <= count < capacity ==> st == Healthy)
  {
    assert LowWaterMark(capacity) <= capacity;
  }

  /** Below a capacity of four the low-water mark is zero, so no count is classified Low. */
  lemma NeverLowBelowFour(count: nat, capacity: nat)
    requires capacity < 4
    ensures Classify(count, LowWaterMark(capacity), capacity) != Low
  {
  }

  /** The position of a state in the order Starving, Low, Healthy, Full. */
  function Rank(st: BufferState): nat {
    match st
    case Starving => 0
    case Low => 1
    case Healthy => 2
    case Full => 3
  }

  /** More frames never give a lower state. */
  lemma ClassifyMonotone(m: nat, n: nat, capacity: nat)
    requires m <= n
    ensures Rank(Classify(m, LowWaterMark(capacity), capacity)) <= Rank(Classify(n, LowWaterMark(capacity), capacity))
  {
    assert LowWaterMark(capacity) <= capacity;
  }

  /** The low-water mark is at most the target, the target at most the capacity, and from capacity 2 on the target is positive. */
  lemma MarksOrdered(capacity: nat)
    ensures LowWaterMark(capacity) <= TargetSize(capacity) <= capacity
    ensures capacity >= 2 ==> TargetSize(capacity) >= 1
  {
  }
}
