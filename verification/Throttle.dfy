/** The half-frame-rate throttle that captureThread runs once per captured frame. */
module Throttle {

  /** Number of comfortable frames after which the preview returns to full rate. */
  const STATISTICS_CNT := 60

  /** At or below this many driver-owned buffers a frame counts as "short". */
  const SHORT_MARK := 4

  /** mNeedHalfFrameRate and mStatisicsIndex. */
  datatype Rate = Rate(needHalf: bool, index: int)

  const START := Rate(false, 0)

  /** One frame; `avail` is mCurAvailBufferCnt after its decrement. */
  function Tick(r: Rate, avail: int): Rate {
    if avail <= SHORT_MARK then Rate(true, 0)
    else if r.needHalf then Rate(r.index + 1 < STATISTICS_CNT, r.index + 1)
    else r
  }

  /** The counter machine after the frames of `log`, oldest first. */
  function After(log: seq<int>): Rate {
    if log == [] then START else Tick(After(log[..|log| - 1]), log[|log| - 1])
  }

  /** One of the last STATISTICS_CNT frames was short. */
  predicate ShortInWindow(log: seq<int>) {
    exists k :: 0 <= k < |log| && |log| - STATISTICS_CNT <= k && log[k] <= SHORT_MARK
  }

  /** Where the machine stands: its index is the distance back to the last short frame. */
  ghost predicate Tracks(r: Rate, log: seq<int>) {
    if r.needHalf then
      && 0 <= r.index < STATISTICS_CNT && r.index < |log|
      && log[|log| - 1 - r.index] <= SHORT_MARK
      && forall k :: |log| - r.index <= k < |log| ==> log[k] > SHORT_MARK
    else
      forall k :: 0 <= k < |log| && |log| - STATISTICS_CNT <= k ==> log[k] > SHORT_MARK
  }

  lemma {:induction false} AfterTracks(log: seq<int>)
    ensures Tracks(After(log), log)
  {
    if log == [] {
    } else {
      var before := log[..|log| - 1];
      AfterTracks(before);
      assert forall k :: 0 <= k < |before| ==> before[k] == log[k];
    }
  }

  /** The counter machine refines the sliding window, over every run of frames: half rate is on exactly
      when one of the last 60 frames was left with at most 4 buffers. */
  lemma NeedHalfIffShortInWindow(log: seq<int>)
    ensures After(log).needHalf <==> ShortInWindow(log)
    ensures After(log).needHalf <==> exists k :: 0 <= k < |log| && |log| - 60 <= k && log[k] <= 4
  {
    AfterTracks(log);
    if After(log).needHalf {
      assert log[|log| - 1 - After(log).index] <= SHORT_MARK;
    }
  }
}
