/**
 * The repository's unit tests, and the zero-capacity edge case, as methods
 * whose postconditions are the outcomes the tests expect.
 */
module Scenarios {
  import opened Wrappers
  import opened Frames
  import opened Occupancy
  import opened Playback
  import opened Sync

  /** Frame `i` of the tests: shown at i * 33.33 ms, handle `i`. */
  function TestFrame(i: nat): FrameInfo {
    FrameInfo(i, (i as real) * 33.33, i)
  }

  /** Pushes test frames `from` up to `to` (exclusive) onto a buffer holding exactly the earlier ones. */
  method PushTestFrames(b: FrameBuffer, from: nat, to: nat)
    requires b.Valid() && from <= to && to <= b.capacity
    requires |b.frames| == from && forall k :: 0 <= k < from ==> b.frames[k] == TestFrame(k)
    modifies b
    ensures b.Valid()
    ensures |b.frames| == to && forall k :: 0 <= k < to ==> b.frames[k] == TestFrame(k)
    ensures b.stats == old(b.stats).(frameCount := to, framesDecoded := old(b.stats.framesDecoded) + to - from,
                                     state := Classify(to, b.lowWaterMark, b.capacity))
    ensures b.lastDisplayedFrame == old(b.lastDisplayedFrame)
  {
    for i := from to to
      invariant b.Valid()
      invariant |b.frames| == i && forall k :: 0 <= k < i ==> b.frames[k] == TestFrame(k)
      invariant b.stats == old(b.stats).(frameCount := i, framesDecoded := old(b.stats.framesDecoded) + i - from,
                                         state := Classify(i, b.lowWaterMark, b.capacity))
      invariant b.lastDisplayedFrame == old(b.lastDisplayedFrame)
    {
      InsertAtEnd(b.frames, TestFrame(i));
      var evicted := b.PushFrame(TestFrame(i));
    }
  }

  /**
   * Five frames into a buffer of capacity 10, playback started at frame 0, and
   * a request for time 50 ms: frame 1 is returned and frame 0 is dropped.
   */
  method PushAndGetScenario() returns (countAfterPush: nat, taken: Option<FrameInfo>, dropped: nat)
    ensures countAfterPush == 5
    ensures taken.Some? && taken.value.frameNumber == 1
    ensures dropped == 1
  {
    var b := new FrameBuffer(10, 30.0);
    PushTestFrames(b, 0, 5);
    countAfterPush := b.GetStats().frameCount;
    b.StartPlayback(0, 0.0);
    assert UniqueNumbers(b.frames);
    assert IsLatestAtOrBefore(b.frames, 50.0, 1);
    LatestIsUnique(b.frames, 50.0, 1, LatestAtOrBefore(b.frames, 50.0).value);
    taken := b.GetFrameForTime(50.0);
    dropped := b.stats.framesDropped;
  }

  /** A buffer of capacity 10 starts Starving, is Healthy with 3 frames and Full with 10. */
  method BufferStatesScenario() returns (initial: BufferState, withThree: BufferState, withTen: BufferState)
    ensures initial == Starving && withThree == Healthy && withTen == Full
  {
    var b := new FrameBuffer(10, 30.0);
    initial := b.GetStats().state;
    PushTestFrames(b, 0, 3);
    withThree := b.GetStats().state;
    PushTestFrames(b, 3, 10);
    withTen := b.GetStats().state;
  }

  /**
   * A buffer of capacity 0 still holds one frame: the first push evicts
   * nothing, the second evicts the first frame's handle.
   */
  method ZeroCapacityScenario() returns (first: Option<nat>, second: Option<nat>, count: nat)
    ensures first == None && second == Some(TestFrame(0).jsHandle) && count == 1
  {
    var b := new FrameBuffer(0, 30.0);
    first := b.PushFrame(TestFrame(0));
    second := b.PushFrame(TestFrame(1));
    count := |b.frames|;
  }

  /**
   * Threshold 40 ms: equal clocks are in sync (Display); video 100 ms ahead
   * is out of sync (Wait); video 100 ms behind is out of sync (Drop).
   */
  method AvSyncScenario() returns (synced: seq<bool>, actions: seq<int>)
    ensures synced == [true, false, false]
    ensures actions == [Display, Wait, Drop]
  {
    var sync := new AVSync(40.0);
    sync.SetAudioTime(1000.0);
    sync.SetVideoTime(1000.0);
    synced, actions := [sync.IsSynced()], [sync.GetSyncAction()];
    sync.SetVideoTime(1100.0);
    synced, actions := synced + [sync.IsSynced()], actions + [sync.GetSyncAction()];
    sync.SetVideoTime(900.0);
    synced, actions := synced + [sync.IsSynced()], actions + [sync.GetSyncAction()];
  }
}
