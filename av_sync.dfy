/**
 * The audio/video sync helper: two independently reported clocks, their drift,
 * and a three-way recommendation for the presentation loop.
 */
module Sync {

  /** The recommendation when video is ahead of audio: hold or repeat the current frame. */
  const Wait: int := 1
  /** The recommendation when the clocks agree within the threshold. */
  const Display: int := 0
  /** The recommendation when video is behind audio: drop a frame to catch up. */
  const Drop: int := -1

  function Abs(x: real): real {
    if x < 0.0 then -x else x
  }

  class AVSync {
    const syncThresholdMs: real
    var audioTimeMs: real
    var videoTimeMs: real
    /** Positive when video is ahead of audio. */
    var driftMs: real

    /** The drift is always the video clock minus the audio clock. */
    ghost predicate Valid()
      reads this
    {
      driftMs == videoTimeMs - audioTimeMs
    }

    constructor (syncThresholdMs: real)
      ensures Valid()
      ensures this.syncThresholdMs == syncThresholdMs
      ensures audioTimeMs == 0.0 && videoTimeMs == 0.0 && driftMs == 0.0
    {
      this.syncThresholdMs := syncThresholdMs;
      audioTimeMs := 0.0;
      videoTimeMs := 0.0;
      driftMs := 0.0;
    }

    method SetAudioTime(timeMs: real)
      modifies this
      ensures Valid()
      ensures audioTimeMs == timeMs && videoTimeMs == old(videoTimeMs)
    {
      audioTimeMs := timeMs;
      driftMs := videoTimeMs - audioTimeMs;
    }

    method SetVideoTime(timeMs: real)
      modifies this
      ensures Valid()
      ensures videoTimeMs == timeMs && audioTimeMs == old(audioTimeMs)
    {
      videoTimeMs := timeMs;
      driftMs := videoTimeMs - audioTimeMs;
    }

    /** In sync when the drift lies within the threshold on either side, boundaries included. */
    function IsSynced(): (b: bool)
      reads this
      ensures b <==> -syncThresholdMs <= driftMs <= syncThresholdMs
    {
      Abs(driftMs) <= syncThresholdMs
    }

    /**
     * Wait when video is ahead by more than the threshold, Drop when it is
     * behind by more than the threshold, Display otherwise; Display exactly
     * when the clocks are in sync.
     */
    function GetSyncAction(): (a: int)
      reads this
      ensures a == Wait || a == Display || a == Drop
      ensures a == Wait <==> driftMs > syncThresholdMs
      ensures a == Drop <==> driftMs <= syncThresholdMs && driftMs < -syncThresholdMs
      ensures a == Display <==> IsSynced()
    {
      if driftMs > syncThresholdMs then Wait
      else if driftMs < -syncThresholdMs then Drop
      else Display
    }

    /** The current drift: video minus audio. */
    function GetDriftMs(): (d: real)
      reads this
      requires Valid()
      ensures d == videoTimeMs - audioTimeMs
    {
      driftMs
    }

    /** Zeroes both clocks and the drift; the threshold is kept. */
    method Reset()
      modifies this
      ensures Valid()
      ensures audioTimeMs == 0.0 && videoTimeMs == 0.0 && driftMs == 0.0
    {
      audioTimeMs := 0.0;
      videoTimeMs := 0.0;
      driftMs := 0.0;
    }
  }

  /**
   * With a non-negative threshold the rule is symmetric: exchanging which clock
   * is ahead exchanges Wait and Drop and keeps Display.
   */
  lemma ActionSymmetric(a: AVSync, b: AVSync)
    requires a.syncThresholdMs == b.syncThresholdMs >= 0.0
    requires b.driftMs == -a.driftMs
    ensures b.GetSyncAction() == -a.GetSyncAction()
  {
  }

  /** With a non-negative threshold a drift of exactly plus or minus the threshold counts as in sync. */
  lemma BoundaryIsSynced(s: AVSync)
    requires s.syncThresholdMs >= 0.0
    requires s.driftMs == s.syncThresholdMs || s.driftMs == -s.syncThresholdMs
    ensures s.IsSynced() && s.GetSyncAction() == Display
  {
  }
}
