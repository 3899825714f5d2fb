/**
 * The playback frame buffer: a bounded queue of frame metadata kept in
 * presentation-time order, fed by the decoder and drained by the display loop.
 */
module Playback {
  import opened Wrappers
  import opened Frames
  import opened Occupancy

  /** The most records a buffer of this capacity can hold: a zero capacity still holds one. */
  function MaxOccupancy(capacity: nat): nat {
    if capacity == 0 then 1 else capacity
  }

  class FrameBuffer {
    /** The buffered records, front first. */
    var frames: seq<FrameInfo>
    const capacity: nat
    const targetSize: nat
    const lowWaterMark: nat
    /** Frame rate, used only by the playback clock, which is not part of this model. */
    const fps: real
    var stats: BufferStats
    var lastDisplayedFrame: Option<nat>
    /** Wall-clock time at which playback started; None while stopped. */
    var playbackStartTime: Option<real>
    var playbackStartFrame: nat

    /** The buffer's invariant. */
    ghost predicate Valid()
      reads this
    {
      Sorted(frames) &&
      lowWaterMark == LowWaterMark(capacity) &&
      targetSize == TargetSize(capacity) &&
      |frames| <= MaxOccupancy(capacity) &&
      stats.capacity == capacity &&
      stats.frameCount == |frames| &&
      stats.state == Classify(|frames|, lowWaterMark, capacity)
    }

    constructor (capacity: nat, fps: real)
      ensures Valid()
      ensures this.capacity == capacity && this.fps == fps && frames == []
      ensures stats == BufferStats(0, capacity, 0, 0, 0, Starving)
      ensures lastDisplayedFrame == None && playbackStartTime == None && playbackStartFrame == 0
    {
      frames := [];
      this.capacity := capacity;
      targetSize := (capacity * 3) / 4;
      lowWaterMark := capacity / 4;
      this.fps := fps;
      stats := BufferStats(0, capacity, 0, 0, 0, Starving);
      lastDisplayedFrame := None;
      playbackStartTime := None;
      playbackStartFrame := 0;
    }

    /** Recomputes the occupancy and the state after a structural change. */
    method UpdateState()
      modifies this`stats
      ensures stats == old(stats).(frameCount := |frames|, state := Classify(|frames|, lowWaterMark, capacity))
    {
      var count := |frames|;
      stats := stats.(frameCount := count, state := Classify(count, lowWaterMark, capacity));
    }

    /**
     * Adds a decoded frame. When the buffer already holds `capacity` records the
     * front one (the earliest) is evicted first and its handle returned; the new
     * frame is then inserted after every record whose timestamp is not greater.
     */
    method PushFrame(frame: FrameInfo) returns (evicted: Option<nat>)
      requires Valid()
      modifies this
      ensures Valid()
      ensures var o := old(frames);
        if |o| >= capacity && o != [] then
          evicted == Some(o[0].jsHandle) && frames == Insert(o[1..], frame)
        else
          evicted == None && frames == Insert(o, frame)
      ensures evicted.Some? ==> forall k :: 0 <= k < |old(frames)| ==> old(frames)[0].ptsMs <= old(frames)[k].ptsMs
      ensures |frames| == if evicted.Some? then |old(frames)| else |old(frames)| + 1
      ensures stats == old(stats).(frameCount := |frames|, framesDecoded := old(stats.framesDecoded) + 1,
                                   state := Classify(|frames|, lowWaterMark, capacity))
      ensures lastDisplayedFrame == old(lastDisplayedFrame)
      ensures playbackStartTime == old(playbackStartTime) && playbackStartFrame == old(playbackStartFrame)
    {
      stats := stats.(framesDecoded := stats.framesDecoded + 1);
      evicted := None;
      if |frames| >= capacity {
        if frames != [] {
          evicted := Some(frames[0].jsHandle);
          SortedSuffix(frames, 1);
          frames := frames[1..];
        }
      }
      var insertPos := InsertPos(frames, frame);
      InsertSorted(frames, frame);
      frames := frames[..insertPos] + [frame] + frames[insertPos..];
      UpdateState();
    }

    /**
     * Pops records off the front until the front one carries frame number
     * `number`, counting the popped records that carry another number.
     */
    method DropBefore(number: nat) returns (dropped: nat)
      requires IndexOfNumber(frames, number).Some?
      modifies this`frames
      ensures dropped == IndexOfNumber(old(frames), number).value
      ensures frames == old(frames)[dropped..]
    {
      ghost var j := IndexOfNumber(frames, number).value;
      dropped := 0;
      while frames == [] || frames[0].frameNumber != number
        invariant 0 <= dropped <= j
        invariant frames == old(frames)[dropped..]
        decreases |frames|
      {
        if frames != [] {
          var popped := frames[0];
          frames := frames[1..];
          if popped.frameNumber != number {
            dropped := dropped + 1;
          }
        }
      }
    }

    /**
     * Hands the display loop the latest frame due at `currentTimeMs`: every
     * record in front of it is dropped and counted, and the frame itself is
     * removed. Nothing changes when no frame is due or when the due frame is
     * the one displayed last.
     */
    method GetFrameForTime(currentTimeMs: real) returns (r: Option<FrameInfo>)
      requires Valid()
      modifies this
      ensures Valid()
      ensures var o := old(frames);
        match LatestAtOrBefore(o, currentTimeMs)
        case None =>
          r == None && frames == o && stats == old(stats) && lastDisplayedFrame == old(lastDisplayedFrame)
        case Some(i) =>
          if old(lastDisplayedFrame) == Some(o[i].frameNumber) then
            r == None && frames == o && stats == old(stats) && lastDisplayedFrame == old(lastDisplayedFrame)
          else
            var j := IndexOfNumber(o, o[i].frameNumber).value;
            r == Some(o[i]) && j <= i && frames == o[j + 1..] &&
            lastDisplayedFrame == Some(o[i].frameNumber) &&
            stats == old(stats).(frameCount := |frames|, framesDropped := old(stats.framesDropped) + j,
                                 framesDisplayed := old(stats.framesDisplayed) + 1,
                                 state := Classify(|frames|, lowWaterMark, capacity))
      ensures r.Some? && UniqueNumbers(old(frames)) ==>
        var i := LatestAtOrBefore(old(frames), currentTimeMs).value;
        frames == old(frames)[i + 1..] && stats.framesDropped == old(stats.framesDropped) + i
      ensures r.Some? ==> old(lastDisplayedFrame) != Some(r.value.frameNumber)
      ensures playbackStartTime == old(playbackStartTime) && playbackStartFrame == old(playbackStartFrame)
    {
      if frames == [] {
        return None;
      }
      var bestIdx := SelectLatest(frames, currentTimeMs);
      if bestIdx.None? {
        return None;
      }
      var frame := frames[bestIdx.value];
      if lastDisplayedFrame == Some(frame.frameNumber) {
        return None;
      }
      ghost var o := frames;
      DisplayThrough(frame.frameNumber);
      assert UniqueNumbers(o) ==> IndexOfNumber(o, frame.frameNumber) == bestIdx by {
        if UniqueNumbers(o) {
          IndexOfUniqueNumber(o, bestIdx.value);
        }
      }
      return Some(frame);
    }

    /**
     * The success path of `GetFrameForTime`: drops the records in front of the
     * first one numbered `number`, removes that one too, and records `number`
     * as displayed.
     */
    method DisplayThrough(number: nat)
      requires Valid() && IndexOfNumber(frames, number).Some?
      modifies this
      ensures Valid()
      ensures var j := IndexOfNumber(old(frames), number).value;
        frames == old(frames)[j + 1..] &&
        stats == old(stats).(frameCount := |frames|, framesDropped := old(stats.framesDropped) + j,
                             framesDisplayed := old(stats.framesDisplayed) + 1,
                             state := Classify(|frames|, lowWaterMark, capacity))
      ensures lastDisplayedFrame == Some(number)
      ensures playbackStartTime == old(playbackStartTime) && playbackStartFrame == old(playbackStartFrame)
    {
      ghost var o := frames;
      var dropped := DropBefore(number);
      stats := stats.(framesDropped := stats.framesDropped + dropped);
      assert Sorted(frames[1..]) by {
        SortedSuffix(o, dropped);
        SortedSuffix(frames, 1);
      }
      assert frames[1..] == o[dropped + 1..] by {
        DropTwice(o, dropped, 1);
      }
      frames := frames[1..];
      lastDisplayedFrame := Some(number);
      stats := stats.(framesDisplayed := stats.framesDisplayed + 1);
      UpdateState();
    }

    /** The first buffered record with frame number `n`, for scrubbing. */
    function GetFrameByNumber(n: nat): (r: Option<FrameInfo>)
      reads this
      ensures r.None? <==> forall k :: 0 <= k < |frames| ==> frames[k].frameNumber != n
      ensures r.Some? ==> exists k :: 0 <= k < |frames| && frames[k] == r.value && r.value.frameNumber == n &&
                                      forall m :: 0 <= m < k ==> frames[m].frameNumber != n
    {
      match IndexOfNumber(frames, n)
      case None => None
      case Some(k) => Some(frames[k])
    }

    /** Anchors the playback clock and forgets the last displayed frame. */
    method StartPlayback(startFrame: nat, currentTimeMs: real)
      requires Valid()
      modifies this
      ensures Valid()
      ensures playbackStartTime == Some(currentTimeMs) && playbackStartFrame == startFrame
      ensures lastDisplayedFrame == None
      ensures frames == old(frames) && stats == old(stats)
    {
      playbackStartTime := Some(currentTimeMs);
      playbackStartFrame := startFrame;
      lastDisplayedFrame := None;
    }

    /** Drops the playback clock's anchor; the start frame is kept. */
    method StopPlayback()
      requires Valid()
      modifies this
      ensures Valid()
      ensures playbackStartTime == None && playbackStartFrame == old(playbackStartFrame)
      ensures frames == old(frames) && stats == old(stats) && lastDisplayedFrame == old(lastDisplayedFrame)
    {
      playbackStartTime := None;
    }

    /** Empties the buffer and returns the handle of every record it held, in buffer order. */
    method Clear() returns (handles: seq<nat>)
      requires Valid()
      modifies this
      ensures Valid()
      ensures handles == Handles(old(frames))
      ensures frames == [] && lastDisplayedFrame == None
      ensures stats == old(stats).(frameCount := 0, state := Starving)
      ensures playbackStartTime == old(playbackStartTime) && playbackStartFrame == old(playbackStartFrame)
    {
      handles := Handles(frames);
      frames := [];
      lastDisplayedFrame := None;
      UpdateState();
    }

    /** A copy of the statistics. */
    function GetStats(): (s: BufferStats)
      reads this
      requires Valid()
      ensures s.frameCount == |frames| && s.capacity == capacity
      ensures s.state == Classify(|frames|, LowWaterMark(capacity), capacity)
    {
      stats
    }

    /** More frames should be decoded while the buffer is below its target. */
    function NeedsFrames(): (b: bool)
      reads this
      requires Valid()
      ensures b <==> 4 * (|frames| + 1) <= 3 * capacity
    {
      |frames| < targetSize
    }

    /** At or above capacity. */
    function IsFull(): (b: bool)
      reads this
      ensures Valid() ==> (b <==> stats.state == Full || (frames == [] && capacity == 0))
      ensures b <==> |frames| >= capacity
    {
      |frames| >= capacity
    }

    /** The frame number the decoder should fetch next. */
    function GetNextDecodeFrame(): (n: nat)
      reads this
      ensures n == match GetLatestFrame() case Some(m) => m + 1 case None => playbackStartFrame
    {
      if frames == [] then playbackStartFrame else frames[|frames| - 1].frameNumber + 1
    }

    /** The front record's frame number: the one with the earliest timestamp. */
    function GetEarliestFrame(): (r: Option<nat>)
      reads this
      ensures r.Some? <==> frames != []
      ensures r.Some? ==> r.value == frames[0].frameNumber
      ensures r.Some? && Valid() ==> forall k :: 0 <= k < |frames| ==> frames[0].ptsMs <= frames[k].ptsMs
    {
      if frames == [] then None else Some(frames[0].frameNumber)
    }

    /** The back record's frame number: one with the latest timestamp. */
    function GetLatestFrame(): (r: Option<nat>)
      reads this
      ensures r.Some? <==> frames != []
      ensures r.Some? ==> r.value == frames[|frames| - 1].frameNumber
      ensures r.Some? && Valid() ==> forall k :: 0 <= k < |frames| ==> frames[k].ptsMs <= frames[|frames| - 1].ptsMs
    {
      if frames == [] then None else Some(frames[|frames| - 1].frameNumber)
    }
  }

  /** A buffer classified Low always asks for frames, and one that asks for frames is not full. */
  lemma NeedsFramesAgreesWithState(b: FrameBuffer)
    requires b.Valid()
    ensures b.stats.state == Low ==> b.NeedsFrames()
    ensures b.NeedsFrames() ==> !b.IsFull()
    ensures b.capacity >= 2 && b.stats.state == Starving ==> b.NeedsFrames()
  {
    MarksOrdered(b.capacity);
  }

  /** Two successful takes in a row never hand out the same frame number. */
  method TakeTwice(b: FrameBuffer, firstTimeMs: real, secondTimeMs: real)
    returns (first: Option<FrameInfo>, second: Option<FrameInfo>)
    requires b.Valid()
    modifies b
    ensures b.Valid()
    ensures first.Some? && second.Some? ==> first.value.frameNumber != second.value.frameNumber
  {
    first := b.GetFrameForTime(firstTimeMs);
    second := b.GetFrameForTime(secondTimeMs);
  }

  /** A buffer of capacity at least one never holds more than its capacity. */
  lemma OccupancyBounded(b: FrameBuffer)
    requires b.Valid() && b.capacity >= 1
    ensures |b.frames| <= b.capacity
  {
  }
}
