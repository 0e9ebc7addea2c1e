# Plate-smoothing filter of the licence-plate viewer

The browser client of the licence-plate recognition demo (`script.js`) does not show each frame's
recognised plate text directly. It passes every detection through `getPredictPlate`, a stateful
sliding-window majority vote:

- `predictQueue` holds the last 10 plates read, oldest first;
- `predictMap` (a JavaScript `Map`) counts each plate of the window and iterates its keys in
  insertion order;
- `tmp` counts the consecutive calls in which nothing (a falsy value) was read.

A call with a plate pushes and counts it, evicting the oldest plate once the window exceeds 10.
A call without one lengthens the streak. Every call then scans the map for the first key with
the strictly greatest count and returns it. On the 10th consecutive miss it instead clears
window and map and returns the string `'None'`. Starting an upload resets all three pieces of
state, and each frame's detections are fed through the filter in order, with `null` results
dropped from the display.

The project has three modules:

- `PlateTable` (`plate_table.dfy`): the `Map` as a `Table` value. It keeps the distinct keys in
  insertion order beside their counts. It provides `set`, `delete`, `clear`, `size` and the mode
  scan as a function (`ModeIndex`, `Mode`), with its tie-breaking stated as "first maximum in
  insertion order".
- `PlateFilter` (`plate_filter.dfy`): the three globals as a `Filter` value.
  - `Step` is one call, `Run` a sequence of calls.
  - `Consistent` is the invariant between calls: at most 10 plates, none empty, the table
    holding exactly the window's plates with their numbers of occurrences, and an empty window
    once the streak reached the limit.
  - The lemmas state what one call and runs of calls do.
- `PlatePredictor` (`plate_predictor.dfy`): the imperative form.
  - A `Predictor` class with the fields `predictQueue`, `predictMap` and `tmp`.
  - `GetPredictPlate` updates them in place; its mode scan is a `while` loop (`ScanMode`).
  - `Reset` is the upload reset.
  - `HandleDetections` is the per-frame loop.
  - Each method is proved against `Step` / `Run`, so every lemma of `PlateFilter` holds of the
    object.

Where the code and its intent differ, the model follows the code:

- On the `'None'` path `tmp` is not set back to 0 (script.js:48-52). The streak keeps growing on
  further misses, so `'None'` is returned at most once per run of misses, and later misses
  return `null` (`MissesPastLimit`).
- Every falsy input is a miss, the empty string included (script.js:22, 25).
- The `predictMap.size === 0` return at script.js:36 cannot be taken (`EarlyReturnUnreachable`).
- `'None'` is returned after 10 misses even when no plate was ever read (`TenMissesFromFresh`).

## Model

| member | source | states |
|---|---|---|
| PlateTable.Remove | script.js:33 | removing a key leaves exactly the other keys, never more of them, and no duplicates where there were none |
| PlateTable.RemoveAt | script.js:33 | deleting the key at position `i` closes the gap: every other key keeps its relative insertion order |
| PlateTable.RemoveAbsent | script.js:33 | deleting a key that is not there leaves the order unchanged |
| PlateTable.Table.Size | script.js:36 | of a well-formed table, `size` is 0 exactly when no key has a count |
| PlateFilter.GetOrZeroIsOccurrences | script.js:28 | reading a plate's count with a default of 0 gives its number of occurrences in the window, whether or not the plate is in the map |
| PlateTable.Table.Set | script.js:28-32 | `set` stores the new count, keeps an existing key in its place and appends a new key last, and keeps the table well formed |
| PlateTable.Table.Delete | script.js:33 | `delete` drops the key and its count, keeps every other key, and keeps the table well formed |
| PlateTable.Table.Clear | script.js:50 | `clear` leaves a well-formed table of size 0 |
| PlateTable.ModeIndex | script.js:39-47 | the scan's final position is -1 exactly for no keys, and otherwise a greatest count with every earlier key strictly smaller |
| PlateTable.ModeIndexStep | script.js:42-46 | one step of the scan moves to the next key exactly when its count is strictly greater than the best so far |
| PlateTable.ModeNullIffEmpty | script.js:39-53 | the scan yields `null` if and only if the map is empty |
| PlateTable.ModeIsFirstMax | script.js:42-47 | the scan returns the key at position `i` if and only if `i` holds a greatest count and every key inserted before it has a smaller one (ties go to the earliest key) |
| PlateTable.ModeDominates | script.js:42-47 | the returned key is in the map and its count is at least every other key's count |
| PlateFilter.Shift | script.js:30-34 | shifting the oldest plate out keeps the table well formed |
| PlateFilter.Record | script.js:25-35 | recording a plate sets the streak to 0 and keeps the table well formed |
| PlateFilter.Run | script.js:21-54 | after any sequence of calls the invariant holds and there is one returned value per call |
| PlateFilter.PushKeepsTallies | script.js:27-28 | after `push` and `set(p, get(p)+1)` the table counts exactly the plates of the window |
| PlateFilter.ShiftKeepsTallies | script.js:30-34 | the shifted plate is in the map, and after the decrement and conditional delete the table counts exactly the plates left |
| PlateFilter.RecordKeepsTallies | script.js:25-35 | after a plate is recorded the table counts exactly the window, and the streak is 0 |
| PlateFilter.RecordQueue | script.js:27-31 | the new window is the old one plus the plate, without its first plate once it was full |
| PlateFilter.StepNext | script.js:21-54 | the state a call leaves: the recorded state for a plate; for a miss, the longer streak, or empty window and map at the limit |
| PlateFilter.RecordKeepsConsistent | script.js:25-35 | recording a non-empty plate keeps the invariant |
| PlateFilter.StepKeepsConsistent | script.js:21-54 | every call keeps the invariant: at most 10 plates, none empty, each map key counted exactly as often as it occurs in the window, and an empty window once the streak reached 10 |
| PlateFilter.CountsSumToLength | script.js:27-34 | the counts of the map add up to the length of the window |
| PlateFilter.CountsPositive | script.js:27-34 | every count in the map is at least 1 and at most 10 |
| PlateFilter.EarlyReturnUnreachable | script.js:36 | after a plate is recorded it is in the map, so the map is never empty there and the `return null` is never taken |
| PlateFilter.RecordConcludes | script.js:36-53 | when the map is not empty after a plate, the call returns the mode of the recorded state |
| PlateFilter.PlateStep | script.js:25-53 | a plate read returns the mode of the recorded state and leaves that state; the sentinel path is not taken |
| PlateFilter.PlateObserved | script.js:25-53 | a plate read sets the streak to 0, becomes the last plate of a window one longer (at most 10), is counted, and the call returns the non-null mode |
| PlateFilter.RecordedPlate | script.js:26-35 | after recording, the window has the new length, ends with the plate, and the map holds it |
| PlateFilter.PushTable | script.js:27-28 | the push bumps the plate's count by one and appends its key only when new |
| PlateFilter.ShiftTable | script.js:31-33 | the shifted plate's count drops by exactly 1, and its key is deleted exactly when the count was 1, otherwise the key order is unchanged |
| PlateFilter.ShiftOthers | script.js:31-33 | the shift changes no other key's presence or count |
| PlateFilter.RecordBelowCapacity | script.js:27-30 | below 10 plates nothing is shifted |
| PlateFilter.RecordAtCapacity | script.js:27-34 | at 10 plates the push is followed by the shift |
| PlateFilter.NoEvictionBelowCapacity | script.js:27-30 | below 10 plates the plate is appended and counted, nothing is evicted, and a new key goes last |
| PlateFilter.PushThenShiftOldest | script.js:27-34 | after push then shift, the oldest plate's count is one lower than after the push, and its key is deleted exactly when that is 0 |
| PlateFilter.PushThenShiftOthers | script.js:27-34 | after push then shift, the pushed plate is counted once more and no third key changes |
| PlateFilter.EvictOldest | script.js:30-34 | with a full window exactly the oldest plate is evicted: its count drops by 1, its key is deleted iff that leaves 0, and no other key's count or position changes |
| PlateFilter.MissBelowLimit | script.js:22-53 | a miss below the limit leaves window and map unchanged, lengthens the streak by 1, and returns the mode, which is `null` exactly when the map is empty |
| PlateFilter.MissAtLimit | script.js:48-52 | the 10th consecutive miss returns `'None'`, empties window and map, and leaves the streak at 10 |
| PlateFilter.EmptyWindowEmptyTable | script.js:27-34 | an empty window comes with an empty map |
| PlateFilter.MissesPastLimit | script.js:22-52 | past the limit, every further miss returns `null` and lengthens the streak |
| PlateFilter.MissRun | script.js:22-53 | a run of misses below the limit only lengthens the streak, and each call returns the unchanged mode |
| PlateFilter.StreakEndsInSentinel | script.js:22-52 | the miss that brings the streak to 10 returns `'None'` after the run's earlier misses returned the mode, and empties window and map |
| PlateFilter.TenMissesFromFresh | script.js:16-52 | from the initial state nine misses return `null` and the tenth returns `'None'` |
| PlateFilter.PlateIntoEmpty | script.js:22-53 | a plate read into an empty window is returned, with a window and map of that plate alone |
| PlateFilter.AfterReset | script.js:314-316 | after the reset the invariant holds, a miss returns `null`, and a plate read returns that plate |
| PlateFilter.OnlyCopiesTable | script.js:27-34 | a window of copies of one plate has a map of that plate alone, counted once per copy |
| PlateFilter.RecordCopiesQueue | script.js:27-31 | recording `p` into copies of `p` adds a copy, up to 10 |
| PlateFilter.RecordCopies | script.js:27-34 | recording `p` into copies of `p` gives the window and map of one more copy, up to 10 |
| PlateFilter.SamePlateStep | script.js:27-47 | reading `p` into copies of `p` returns `p` |
| PlateFilter.RepeatedPlate | script.js:27-47 | reading the same plate again and again returns it on every call, and the window caps at 10 copies of it |
| PlatePredictor.Predictor.constructor | script.js:16-19 | the initial state: empty window and map, streak 0, invariant holding |
| PlatePredictor.Predictor.Reset | script.js:314-316 | the upload reset leaves empty window and map and streak 0 |
| PlatePredictor.Predictor.ScanMode | script.js:39-47 | the `for` loop over the map's entries returns the mode as `Mode` defines it |
| PlatePredictor.Predictor.PushPlate | script.js:27-28 | the in-place push and count update give the `Push` state and leave the streak |
| PlatePredictor.Predictor.ShiftOldest | script.js:30-34 | the in-place shift, decrement and conditional delete give the `Shift` state and leave the streak |
| PlatePredictor.Predictor.RecordPlate | script.js:26-35 | the in-place plate path keeps the invariant and leaves the `Record` state |
| PlatePredictor.Predictor.GetPredictPlate | script.js:21-54 | one call updates the fields to the state `Step` gives and returns what `Step` returns, keeping the invariant |
| PlatePredictor.Observations | script.js:200 | one filter input per detection |
| PlatePredictor.ObservationsAt | script.js:200 | the `i`-th input is the `i`-th detection's plate text when its status is `'success'`, and `null` otherwise |
| PlatePredictor.Displayed | script.js:201-211 | the shown plates are the non-null results: their number is the number of calls less those that returned `null`, each plate is shown exactly as many times as calls returned it, and a plate is shown iff some call returned it (order: `DisplayedSnoc`) |
| PlatePredictor.DisplayedSnoc | script.js:201-211 | a `null` result adds nothing to the display, and any other result is appended |
| PlatePredictor.HandleDetections | script.js:196-211 | feeding a frame's detections in order leaves the state `Run` gives and displays its non-null results in order |

## Left out

- The WebSocket connection, reconnection and backoff (script.js:56-117, 220-261) are transport and timers.
- JSON message dispatch and status banners (script.js:119-156, 263-265, 398-400) are browser I/O and DOM.
- Frame decoding and canvas drawing (script.js:160-193) are foreign browser calls.
- The HTML built for each detection (script.js:197-213) is DOM only. Only the filter call and the dropping of `null` results are modelled, in `HandleDetections`.
- The upload handlers (script.js:271-392, 417-459) are left out: `FileReader`, `fetch`, the type and size checks and the async callbacks are I/O. Only their state reset at script.js:314-316 is modelled (`Reset`).
- Nav tab toggling (script.js:402-415) is UI.
- `plate_text` is modelled as a string or `null`. `undefined` behaves as `null`, and other non-string JavaScript values are not modelled.
- `tmp` and the counts are unbounded integers. JavaScript numbers lose precision past 2^53 misses; that case is not modelled.
- `maxCount` starting at `-Infinity` is modelled by `mode` being still `null`: the first entry always wins, exactly as `-Infinity` makes it.
- PlatePredictor.Predictor.ShiftOldest: reads the shifted plate's count as `GetOrZero`. For a plate absent from the map the source would compute `NaN`, but `ShiftKeepsTallies` proves the plate is always present.
- PlatePredictor.Predictor.ScanMode: requires the table to be well formed. This is a condition on the model's representation of a `Map` (keys and counts agree), not on the source's callers; `Valid` guarantees it in `GetPredictPlate`.
- PlatePredictor.HandleDetections: takes the whole frame's detections as a sequence. The source maps over `data.detections` only when it is present and non-empty; an empty sequence here feeds nothing, which is the same for the filter.
- `'None'` as returned by the sentinel path and a plate whose text is literally `None` are the same value. This is the same in the source.
- Concurrency is not modelled: the source runs on the browser's single thread, and the calls are sequential.
