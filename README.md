# DQ7 Lucky Panel Tracker — a verified model of the tracking core

The tracker watches a video feed of the "Lucky Panel" card game. In preview mode it
finds the white panels of the grid and names the grid's difficulty from their number.
The lock command freezes the panel rectangles as slots, labels slot `i` as `P{i+1}`
and stores each slot's image. From then on, every frame does four things:

- It classifies each slot as face-up or face-down from the mean saturation and
  brightness of its region.
- It debounces that estimate through a two-entry history per slot.
- When exactly two slots are confirmed face-up, it exchanges their labels and images,
  as long as no swap is in progress and the cooldown has passed.
- The swap lock is released by a frame with no face-up slot.

The model has six modules:

- `Detector` (`detector.dfy`): the area filter, the reading-order sort and the
  difficulty table. The detection pass is a method that sorts an array in place.
  It is proved to return the unique stable reading order of the accepted rectangles.
- `Classifier` (`classifier.dfy`): the face-up test on a region of HSV pixels. Its
  comparison on integer sums is proved equivalent to the test on the exact real
  means.
- `Debounce` (`debounce.dfy`): the bounded first-in-first-out history and the
  confirmation rule.
- `Labels` (`labels.dfy`): the default labels `"P" + decimal(i + 1)`. They are
  proved distinct through a decimal round trip.
- `SwapEngine` (`swap_engine.dfy`): the whole program state as a value (`Session`),
  its invariant `Valid`, and the transitions of one frame (`Observe`, `Decide`,
  `Tick`) and of the two commands (`LockGrid`, `ResetGrid`). The lemmas about them
  cover the exchange, the lock, the cooldown and identity preservation.
- `PanelTracker` (`tracker.dfy`): the main loop's global state as the class
  `Tracker`, whose fields are updated in place. Each method is proved to leave
  exactly the state that the matching `SwapEngine` function describes.

Where the program's own messages and comments suggest more than its code does, the
model follows the code:

- Only the lower-case keys `s`, `r` and `q` are commands. The start-up message at
  `panel_overlay.py:73` says "Press 'S'", but line 151 compares with `ord('s')`, so
  upper-case keys do nothing.
- Reset forgets only the grid geometry: line 160 empties `fixed_rois` and nothing
  else. Labels, images and histories stay in place until the next lock. The lock
  command (lines 151-156) is also honoured while a grid is already locked: it
  re-detects from the current frame.
- The comment at line 141 says that emptying the histories prevents several
  triggers in one movement. It also means the next frame has no confirmed slot,
  which releases the swap lock (lines 144-146). So two panels held face-up are
  swapped back once the cooldown has passed (`SwapEngine.HeldPanelsSwapBack`).
  Only the cooldown separates the two swaps, not the lock.

Time is an integer number of milliseconds. The cooldown is 600 ms and is compared
strictly (`now - lastSwap > 600`).

## Model

| member | source | states |
|---|---|---|
| Detector.FilteredKeepsExactlyAccepted | panel_overlay.py:38-42 | every kept rectangle has area strictly between 4000 and 25000, and each accepted rectangle is kept as many times as it occurs while each rejected one is dropped |
| Detector.Key | panel_overlay.py:45 | the secondary key is the left edge, and the row bucket is the floor of `y / 50` (the rectangle's top lies in that 50-pixel band, also for negative `y`) |
| Detector.ReadingOrderSortedPermutation | panel_overlay.py:45 | the sorted list is in (row bucket, x) order and is a permutation of its input |
| Detector.ReadingOrderStable | panel_overlay.py:45 | the sort is stable: rectangles with equal keys keep their input order |
| Detector.ReadingOrderUnique | panel_overlay.py:45 | two key-ordered lists that agree on the order of each key's rectangles are equal, so any stable sort by this key gives this result |
| Detector.ReadingOrderIgnoresInputOrder | panel_overlay.py:35-45 | when no two different rectangles share a key, the slot order does not depend on the order in which contours were listed |
| Detector.Difficulty | panel_overlay.py:47-54 | 12, 16 and 20 panels name Beginner, Intermediate and Advanced, each if and only if; every other count is "Unknown" |
| Detector.InsertIntoPrefix | panel_overlay.py:45 | one in-place insertion step: the prefix grows by one element in sorted position and the rest of the array is untouched |
| Detector.SortReadingOrder | panel_overlay.py:45 | the array is sorted in place into exactly the stable reading order of its old contents |
| Detector.DetectPanels | panel_overlay.py:29-55 | the result is accepted rectangles only, a permutation of the accepted input, in reading order and stable per key, and the difficulty names its length |
| Classifier.MeanBelow | panel_overlay.py:65-69 | a mean is below a whole threshold if and only if the sum is below threshold times count |
| Classifier.MeanAbove | panel_overlay.py:65-69 | a mean is above a whole threshold if and only if the sum is above threshold times count |
| Classifier.IsFaceUp | panel_overlay.py:58-69 | an empty region is never face-up; otherwise face-up if and only if mean saturation < 85 and mean brightness > 100 |
| Debounce.Latest | panel_overlay.py:96 | a bounded history keeps the last `n` entries, or all of them when there are fewer |
| Debounce.AppendWithRoom | panel_overlay.py:96-97 | appending to a history that is not full adds at the end |
| Debounce.AppendWhenFull | panel_overlay.py:96-97 | appending to a full history evicts the oldest entry |
| Debounce.AppendBounded | panel_overlay.py:96-97 | a history never holds more than 2 entries, and its newest entry is the latest estimate |
| Debounce.AppendAllKeepsLatest | panel_overlay.py:95-97 | after any number of appends, the history is the latest 2 of all estimates since it was last empty |
| Debounce.ConfirmedIffLatestAllUp | panel_overlay.py:99 | from an empty history, a slot is confirmed if and only if at least 2 estimates arrived and the last 2 are all face-up |
| Debounce.ClearedNotConfirmed | panel_overlay.py:99 | an empty history does not confirm |
| Debounce.FalseBlocksConfirmation | panel_overlay.py:99 | a face-down estimate among the latest 2 blocks confirmation |
| Labels.Decimal | panel_overlay.py:154 | the decimal text of a number is nonempty and all digits |
| Labels.DecimalRoundTrip | panel_overlay.py:154 | reading back the decimal text of `n` gives `n` |
| Labels.PanelLabelInjective | panel_overlay.py:154 | different slots get different default labels |
| SwapEngine.Slots | panel_overlay.py:154-156 | the slot indices of a grid of `n` panels are exactly `0 .. n-1` |
| SwapEngine.PairExists | panel_overlay.py:131 | a set of two confirmed slots consists of two distinct indices |
| SwapEngine.Exchange | panel_overlay.py:134-135 | the two slots trade values, every other slot keeps its value, and the set of slots is unchanged |
| SwapEngine.ExchangeSymmetric | panel_overlay.py:131-135 | which of the two slots comes first out of the set does not matter |
| SwapEngine.ExchangeInvolutive | panel_overlay.py:134-135 | exchanging the same two slots again restores the map |
| SwapEngine.ExchangePermutes | panel_overlay.py:134-135 | after an exchange the slots hold a permutation of their old values |
| SwapEngine.Decide | panel_overlay.py:124-146 | a decision keeps the grid, the difficulty and the set of slots, and keeps the state valid |
| SwapEngine.DecideCommits | panel_overlay.py:129-142 | with two confirmed slots, no lock and the cooldown strictly passed: labels and images are exchanged, the lock is set, the time is recorded and every history is emptied; nothing else changes |
| SwapEngine.DecideWithoutCommit | panel_overlay.py:128-146 | a frame that does not commit changes nothing, except that a frame with no confirmed slot releases the lock |
| SwapEngine.LockReleasedOnlyWhenEmpty | panel_overlay.py:144-146 | a set lock is released if and only if no slot is confirmed |
| SwapEngine.Run | panel_overlay.py:124-146 | a run of decisions keeps the set of slots |
| SwapEngine.NoDoubleTrigger | panel_overlay.py:129-146 | while locked, frames that each have a confirmed slot change nothing at all |
| SwapEngine.CooldownEnforced | panel_overlay.py:130 | frames within the cooldown of the last swap never commit another, whatever the lock and the confirmed sets |
| SwapEngine.Tick | panel_overlay.py:90-146 | one frame keeps the state valid and the grid unchanged |
| SwapEngine.DefaultLabels | panel_overlay.py:154 | the default labels cover exactly the slots of the grid |
| SwapEngine.ValidInitial | panel_overlay.py:18-26 | the start state is valid |
| SwapEngine.LockGridEstablishes | panel_overlay.py:151-156 | after lock: the slots are the detected panels in reading order, slot `i` holds label `P{i+1}` and its own region's image, labels are distinct, histories are empty, and lock flag and last swap time are kept |
| SwapEngine.ResetKeepsSlots | panel_overlay.py:159-160 | reset keeps the state valid and keeps every label, image and history |
| SwapEngine.ObserveKeepsValid | panel_overlay.py:90-99 | observing keeps the state valid, and every confirmed slot has a label |
| SwapEngine.TickKeepsInvariants | panel_overlay.py:124-146 | every frame keeps the state valid and keeps the slot labels a permutation of `P1 .. Pn`: no identity is lost or duplicated |
| SwapEngine.CommitReleasedNextFrame | panel_overlay.py:141-146 | after the histories are emptied, the next frame confirms no slot, and its only effect besides the histories is to release the lock |
| SwapEngine.PreviewFrameReleasesLock | panel_overlay.py:144-146 | without a locked grid, a frame only releases the swap lock |
| SwapEngine.ObservedHistory | panel_overlay.py:95-97 | each slot's history after a frame is its old history with this frame's estimate appended |
| SwapEngine.FirstFrameAfterCommit | panel_overlay.py:95-146 | the first frame after a swap leaves labels, images and last swap time alone, releases the lock, and leaves each history holding only that frame's estimate |
| SwapEngine.SecondFrameConfirms | panel_overlay.py:95-99 | the second equal estimate confirms exactly the slots seen face-up |
| SwapEngine.RepeatedEstimatesConfirm | panel_overlay.py:99 | histories holding two equal estimates confirm exactly the face-up slots |
| SwapEngine.HeldPanelsSwapBack | panel_overlay.py:124-146 | two panels held face-up through the two frames after a swap are exchanged again once the cooldown has passed |
| PanelTracker.Tracker.constructor | panel_overlay.py:18-26 | the globals start in preview mode with nothing remembered, and the state is valid |
| PanelTracker.Tracker.ObserveFrame | panel_overlay.py:90-115 | the fixed-mode loop appends each slot's estimate to its history (creating a missing history) and returns exactly the confirmed slots |
| PanelTracker.Tracker.ClearHistories | panel_overlay.py:142 | every history is emptied and nothing else changes |
| PanelTracker.Tracker.Commit | panel_overlay.py:131-142 | the committed swap's new state: labels and images exchanged, lock set, time recorded, histories emptied |
| PanelTracker.Tracker.SwapStep | panel_overlay.py:124-146 | the new state is the swap decision on the confirmed slots |
| PanelTracker.Tracker.Frame | panel_overlay.py:90-146 | the new state is one frame of observation and decision, and it stays valid |
| PanelTracker.Tracker.Lock | panel_overlay.py:151-156 | the new state is the lock command applied to the current frame's rectangles, and it is valid whatever the old state was |
| PanelTracker.Tracker.Reset | panel_overlay.py:159-160 | only the grid geometry is forgotten, and a valid state stays valid |
| PanelTracker.Tracker.Iteration | panel_overlay.py:75-164 | one loop iteration: a frame, then `s` locks, `r` resets, `q` quits and any other key does nothing; the state stays valid |

## Left out

- The image processing before and around the model is not modelled. Detection starts
  from the list of bounding rectangles, and a panel region is given as its HSV pixels.
  This covers grey-scale conversion, thresholding at 180, contour search, BGR-to-HSV
  conversion and frame slicing.
- Frame slicing is replaced by a function from a rectangle to its region. A rectangle
  outside the frame is expected to give an empty region, as numpy slicing does.
- The hue channel is carried in the pixel type but never read, as in the code.
- Classifier.IsFaceUp: the means are exact rationals. The code's `np.mean` is a float,
  so a mean within rounding distance of 85 or 100 may compare differently.
- SwapEngine.CooldownEnforced: time is integer milliseconds from a parameter. The
  code uses `time.time()` in float seconds against `0.6`, so float rounding at the
  boundary is not modelled.
- Detector.SortReadingOrder: the code sorts with Python's built-in stable sort. The
  model uses insertion sort. `Detector.ReadingOrderUnique` shows that every stable
  sort by this key gives the same list.
- The overlay blend (lines 102-110), all drawing, text and window display are not
  modelled. They only produce the displayed image and change no state.
- The preview-mode detection (lines 81-87) is modelled only for its effect on the
  state, which is none. Its result is only drawn.
- Log messages (`print`) are not modelled.
- The camera setup (lines 7-10), frame capture, and the end of the loop when no frame
  arrives (line 77) are left out. Each iteration starts from a frame given as
  parameters. `q` is reported as a result rather than breaking a loop, and releasing
  the camera and windows is not modelled.
- The key is taken as the already-masked low byte. The `& 0xFF` masking is not
  modelled.
- The two-slot swap picks its pair from the set in no particular order, as `list(curr_set)` does. The
  lemmas show the order does not matter.
- The label text in the swap log line is not modelled.
- env_checker.py is not part of this model. It is a separate camera-selection tool:
  it probes camera indices 0-10 and shows a live preview of each working camera, and
  the user steps through them with `n` and picks one with `q` to set `DEVICE_ID`. It
  shares no state with the tracker.
