# Playback frame buffer and A/V sync — a Dafny model

This project models the core of the frame-buffer crate of a browser video editor
(`crates/frame-buffer/src/lib.rs`). It proves properties of that model.

- **`FrameBuffer`** is a bounded queue of decoded-frame metadata (`FrameInfo`). It sits
  between the decoder and the display loop and is kept sorted by presentation
  timestamp (pts).
  - `push_frame` evicts the front record when the buffer is at capacity, then inserts
    the new record in sorted order.
  - `get_frame_for_time` hands out the latest frame due at a given time. It drops and
    counts every record in front of that frame, and it refuses to hand out the frame
    displayed last.
  - Read-only queries serve scrubbing and decode pacing.
  - `update_state` classifies occupancy as Starving, Low, Healthy or Full.
- **`AVSync`** keeps an audio clock and a video clock and their drift
  (video − audio). It recommends Wait (1), Display (0) or Drop (−1).

## Layout

- `wrappers.dfy` — `Option`.
- `frames.dfy` (module `Frames`) — `FrameInfo` and the pure functions over a
  sequence of records:
  - sorted insertion (`InsertPos`, `Insert`);
  - the selection rule (`LatestAtOrBefore`) and the selection loop (`SelectLatest`);
  - lookup by number (`IndexOfNumber`);
  - collection of handles (`Handles`).
- `occupancy.dfy` (module `Occupancy`) — `BufferState`, `BufferStats`, the
  classification `Classify` and the integer-division marks.
- `frame_buffer.dfy` (module `Playback`) — class `FrameBuffer`.
  - Its `frames` field is a `seq<FrameInfo>` that the methods reassign.
  - `Valid()` is the invariant required and kept by every public method that
    changes the buffer (the internal helpers `UpdateState` and `DropBefore` work
    on intermediate states and are exempt): sorted order,
    `frame_count == len`, the state equals the classification of `len`, and
    occupancy is bounded (at most `capacity`, or 1 when the capacity is 0).
- `av_sync.dfy` (module `Sync`) — class `AVSync`. Its invariant is
  `drift == video − audio`.
- `scenarios.dfy` (module `Scenarios`) — the crate's three unit tests and the
  zero-capacity case, each as a method whose postcondition is the expected outcome.

## Modelling decisions

- Timestamps and clock samples are `real`. They only take part in comparisons and
  subtraction, and the model makes no claim about float rounding.
- The `f64::NEG_INFINITY` seed of the selection loop is modelled as "no best index
  yet".
- Frame numbers, handles and counters are `nat`.
- `capacity`, `target_size`, `low_water_mark` and `fps` never change after
  construction, so they are `const` fields.
- The removal loop of `get_frame_for_time` is modelled literally (`DropBefore`).
  - It pops records until the front record carries the selected frame number. It
    stops at the *first* record with that number (`IndexOfNumber`).
  - When frame numbers are unique (`UniqueNumbers`), that record is the selected
    one. Then the drop count equals the selected index.
  - With duplicate numbers, the code removes the earlier duplicate and returns a
    copy of the selected record. `GetFrameForTime` names both the removed prefix
    and the returned record in its postcondition.
- The eviction check runs before insertion. The evicted record is therefore the
  earliest *existing* one, even when the new frame sorts before it.
- With capacity 0, the first push evicts nothing and the buffer then holds one
  record (`ZeroCapacityScenario`).
- Three points of the code that the model keeps as written:
  - The removal loop (crates/frame-buffer/src/lib.rs:218-225) stops at the first
    record carrying the selected frame number. The comment above it (line 216)
    says "before this one", which matches only when frame numbers are unique.
  - `clear` (crates/frame-buffer/src/lib.rs:291-297) empties the records and
    forgets the last displayed frame, but keeps the cumulative counters
    (`frames_dropped`, `frames_decoded`, `frames_displayed`). Only `frame_count`
    and the state change (and `buffer_duration_ms`, lines 353-357, which the
    model leaves out).
  - Records popped by the removal loop of `get_frame_for_time` (line 219) leave
    without their `js_handle` being handed back. The record popped at line 229 is
    the returned one, handle included, unless an earlier record carries the same
    frame number. This follows from `GetFrameForTime`'s postconditions
    `r == Some(o[i])` and `frames == o[j + 1..]`: the handles of `o[..j]`, and of
    `o[j]` when `j < i`, are neither returned nor still buffered.

## Model

| member | source | states |
|---|---|---|
| `Frames.InsertPos` | crates/frame-buffer/src/lib.rs:177-180 | the insertion point is the first index whose pts exceeds the new frame's, or the length when there is none: every earlier record has pts not greater than the new frame's |
| `Frames.Insert` | crates/frame-buffer/src/lib.rs:176-182 | the result is one record longer and holds the new frame at its insertion point; InsertSorted, InsertPlacement, InsertKeepsOrder and InsertMultiset state the rest |
| `Frames.InsertSorted` | crates/frame-buffer/src/lib.rs:176-182 | inserting at that point keeps a non-decreasing pts order |
| `Frames.InsertPlacement` | crates/frame-buffer/src/lib.rs:176-182 | the new frame lands after every record with pts not greater than its own (equal pts included) and, in a sorted buffer, before every record with a greater pts |
| `Frames.InsertKeepsOrder` | crates/frame-buffer/src/lib.rs:182 | removing the new frame again gives back the old records in their old order |
| `Frames.InsertMultiset` | crates/frame-buffer/src/lib.rs:182 | insertion adds exactly the new frame and loses nothing |
| `Frames.InsertAtEnd` | crates/frame-buffer/src/lib.rs:177-182 | a frame whose pts is not below any buffered pts is appended at the back |
| `Frames.SortedSuffix` | crates/frame-buffer/src/lib.rs:171 | removing records from the front keeps the order sorted |
| `Frames.LatestAtOrBefore` | crates/frame-buffer/src/lib.rs:197-206 | None exactly when every pts is greater than the query time; otherwise the index has pts at most the query time, no record with pts at most the query time has a later pts, and among ties the first index wins |
| `Frames.LatestIsUnique` | crates/frame-buffer/src/lib.rs:201-206 | the selection rule picks at most one index |
| `Frames.SelectLatest` | crates/frame-buffer/src/lib.rs:198-206 | the forward loop with a strict `>` on the best pts computes exactly `LatestAtOrBefore` |
| `Frames.IndexOfNumber` | crates/frame-buffer/src/lib.rs:243-246 | None exactly when no record carries the number; otherwise the index of a record with that number, and no earlier record has it |
| `Frames.IndexOfUniqueNumber` | crates/frame-buffer/src/lib.rs:218-225 | with unique frame numbers, the first record with a record's number is that record, so the removal loop stops at the selected index |
| `Frames.Handles` | crates/frame-buffer/src/lib.rs:292 | the returned handles are, position by position, the `js_handle`s of the records in buffer order |
| `Frames.HandlesExactly` | crates/frame-buffer/src/lib.rs:292 | every buffered record's handle is returned, and every returned handle belongs to a buffered record |
| `Occupancy.Classify` | crates/frame-buffer/src/lib.rs:342-350 | Starving iff empty; Low iff non-empty and below the low-water mark; Full iff non-empty, not below the mark and at or above capacity; Healthy iff non-empty, not below the mark and below capacity |
| `Occupancy.LowWaterMark` | crates/frame-buffer/src/lib.rs:150 | the low-water mark is the capacity divided by 4, rounded down |
| `Occupancy.TargetSize` | crates/frame-buffer/src/lib.rs:149 | the target is three times the capacity divided by 4, rounded down |
| `Occupancy.ClassifyWithMarks` | crates/frame-buffer/src/lib.rs:342-350 | with the buffer's own marks the classification is the four-way state machine: 0 gives Starving, below a quarter gives Low, at or above capacity gives Full, otherwise Healthy |
| `Occupancy.NeverLowBelowFour` | crates/frame-buffer/src/lib.rs:150 | for capacity below 4 the mark is 0, so no count is classified Low |
| `Occupancy.ClassifyMonotone` | crates/frame-buffer/src/lib.rs:342-350 | more frames never give a lower state in the order Starving, Low, Healthy, Full |
| `Occupancy.MarksOrdered` | crates/frame-buffer/src/lib.rs:149-150 | low-water mark ≤ target ≤ capacity; from capacity 2 on the target is at least 1 |
| `Playback.FrameBuffer.constructor` | crates/frame-buffer/src/lib.rs:144-160 | a new buffer is empty and Starving with zero counters, has no last displayed frame and no playback anchor, and has start frame 0 |
| `Playback.FrameBuffer.UpdateState` | crates/frame-buffer/src/lib.rs:338-351 | sets `frame_count` to the occupancy and the state to its classification; the counters are unchanged |
| `Playback.FrameBuffer.PushFrame` | crates/frame-buffer/src/lib.rs:166-186 | `frames_decoded` grows by 1. At or over capacity with a non-empty buffer, the front record (the smallest pts) is evicted and its handle returned, so occupancy is unchanged. Otherwise nothing is evicted and occupancy grows by 1. The new frame is inserted by `Insert`, and the invariant is kept |
| `Playback.FrameBuffer.DropBefore` | crates/frame-buffer/src/lib.rs:217-225 | pops exactly the records in front of the first one carrying the frame number and returns how many |
| `Playback.FrameBuffer.GetFrameForTime` | crates/frame-buffer/src/lib.rs:192-239 | None and nothing changed when no record is due or the due record's number was displayed last. Otherwise: the due record is returned; records through the first one with its number are removed; `frames_dropped` grows by that record's index and `frames_displayed` by 1; its number becomes the last displayed. With unique numbers, exactly the selected record and its predecessors are removed |
| `Playback.FrameBuffer.DisplayThrough` | crates/frame-buffer/src/lib.rs:216-233 | removes the records up to and including the first one with the number, counts the ones in front as dropped, counts one display and records the number as displayed |
| `Playback.FrameBuffer.GetFrameByNumber` | crates/frame-buffer/src/lib.rs:243-247 | None exactly when no record carries the number; otherwise the first record that does |
| `Playback.FrameBuffer.StartPlayback` | crates/frame-buffer/src/lib.rs:251-255 | sets the anchor time and start frame and forgets the last displayed frame; frames and statistics are unchanged |
| `Playback.FrameBuffer.StopPlayback` | crates/frame-buffer/src/lib.rs:259-261 | clears the anchor time only |
| `Playback.FrameBuffer.Clear` | crates/frame-buffer/src/lib.rs:291-297 | returns the handles of all records in buffer order, leaves the buffer empty, `frame_count` 0, the state Starving and no last displayed frame; the counters and the playback anchor are untouched |
| `Playback.FrameBuffer.GetStats` | crates/frame-buffer/src/lib.rs:301-303 | the statistics report the current occupancy, the capacity and the classification of the occupancy |
| `Playback.FrameBuffer.NeedsFrames` | crates/frame-buffer/src/lib.rs:307-309 | true iff 4·(len+1) ≤ 3·capacity, i.e. len is below three quarters of the capacity rounded down |
| `Playback.FrameBuffer.IsFull` | crates/frame-buffer/src/lib.rs:313-315 | true iff len ≥ capacity; under the invariant, true iff the state is Full or the buffer is empty with capacity 0 |
| `Playback.FrameBuffer.GetNextDecodeFrame` | crates/frame-buffer/src/lib.rs:319-323 | one past the latest buffered frame number, or the playback start frame when empty |
| `Playback.FrameBuffer.GetEarliestFrame` | crates/frame-buffer/src/lib.rs:327-329 | None iff empty; otherwise the front record's number, whose pts is the smallest buffered |
| `Playback.FrameBuffer.GetLatestFrame` | crates/frame-buffer/src/lib.rs:333-335 | None iff empty; otherwise the back record's number, whose pts is the largest buffered |
| `Playback.NeedsFramesAgreesWithState` | crates/frame-buffer/src/lib.rs:307-315 | a Low buffer needs frames; a buffer that needs frames is not full; from capacity 2 on, an empty buffer needs frames |
| `Playback.TakeTwice` | crates/frame-buffer/src/lib.rs:211-214 | two successful takes in a row never return the same frame number |
| `Playback.OccupancyBounded` | crates/frame-buffer/src/lib.rs:170-182 | with capacity at least 1, occupancy never exceeds capacity |
| `Sync.AVSync.constructor` | crates/frame-buffer/src/lib.rs:377-384 | keeps the threshold; both clocks and the drift start at 0 |
| `Sync.AVSync.SetAudioTime` | crates/frame-buffer/src/lib.rs:388-391 | sets the audio clock, keeps the video clock, drift becomes video − audio |
| `Sync.AVSync.SetVideoTime` | crates/frame-buffer/src/lib.rs:395-398 | sets the video clock, keeps the audio clock, drift becomes video − audio |
| `Sync.AVSync.IsSynced` | crates/frame-buffer/src/lib.rs:402-404 | true iff −threshold ≤ drift ≤ threshold (boundaries included) |
| `Sync.AVSync.GetSyncAction` | crates/frame-buffer/src/lib.rs:409-420 | the action is one of 1, 0, −1. It is 1 iff drift > threshold, −1 iff drift < −threshold (and not above the threshold), and 0 iff in sync |
| `Sync.AVSync.GetDriftMs` | crates/frame-buffer/src/lib.rs:424-426 | the drift is video − audio |
| `Sync.AVSync.Reset` | crates/frame-buffer/src/lib.rs:430-434 | zeroes both clocks and the drift; the threshold is kept |
| `Sync.ActionSymmetric` | crates/frame-buffer/src/lib.rs:409-420 | with a non-negative threshold, negating the drift negates the action |
| `Sync.BoundaryIsSynced` | crates/frame-buffer/src/lib.rs:402-420 | with a non-negative threshold, a drift of exactly ±threshold is in sync and gives Display |
| `Scenarios.PushTestFrames` | crates/frame-buffer/src/lib.rs:446-457 | pushing test frames in pts order appends them and adds one decode per frame |
| `Scenarios.PushAndGetScenario` | crates/frame-buffer/src/lib.rs:441-466 | with capacity 10, 5 frames at i·33.33 ms and playback from frame 0, the count is 5 and time 50 returns frame 1 with frame 0 dropped |
| `Scenarios.BufferStatesScenario` | crates/frame-buffer/src/lib.rs:468-487 | with capacity 10: Starving when fresh, Healthy with 3 frames, Full with 10 |
| `Scenarios.ZeroCapacityScenario` | crates/frame-buffer/src/lib.rs:166-186 | with capacity 0 the first push evicts nothing, the second evicts the first frame's handle, and one frame stays |
| `Scenarios.AvSyncScenario` | crates/frame-buffer/src/lib.rs:489-507 | with threshold 40: equal clocks are synced and give 0; video 100 ahead is not synced and gives 1; video 100 behind is not synced and gives −1 |

## Left out

- The `wasm_bindgen` attributes and the panic-hook `init` (lines 11-19): binding plumbing with no logic.
- `get_presentation_time` and `get_target_frame` (lines 265-287): they are floating-point clock arithmetic, including a saturating float-to-integer cast. The anchor fields they read, `playbackStartTime` and `playbackStartFrame`, are modelled.
- `buffer_duration_ms` (lines 353-357): floating-point telemetry only. `BufferStats` has no such field, and `UpdateState` does not compute it.
- The informational fields `width`, `height`, `duration_ms` and `is_keyframe` of `FrameInfo`: no operation of the core reads them.
- `FrameInfo::new` and the `BufferStats::state` getter: a record constructor and a field read, which the datatypes give directly.
- f64 semantics: NaN and infinite timestamps are not modelled, and neither is rounding.
- Fixed-width integers: the u32 overflow of the counters, of `frame_number + 1` and of `capacity * 3` is not modelled, because counters and numbers are unbounded `nat`.
- The ring storage of `VecDeque`: the buffer is a sequence, which has the same front/back/insert semantics.
- The JS-side frame storage that handles index into: it is outside the core.
