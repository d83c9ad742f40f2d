# Proximity key detection, modelled in Dafny

This project models AnySoftKeyboard's `ProximityKeyDetector.getKeyIndexAndNearbyCodes`.
That method turns a touch point on the on-screen keyboard into two results:

- **The primary key index.** It is the last candidate key that contains the point. If none
  contains it, it is the nearest printable key within the squared proximity threshold. If
  there is none of those either, it is `NOT_A_KEY`.
- **The nearby codes.** When the caller passes an `allKeys` array, the codes of the
  qualifying keys are inserted into it, ranked by squared distance. The ranking is a
  bounded sorted insertion driven by the detector's working array `mDistances` (36
  slots, `Integer.MAX_VALUE` meaning empty). A qualifying key can be left out: it is
  skipped when no slot is farther than its distance, and codes shifted past the end
  are dropped. When the qualifying keys bring at most 36 codes in all and are all
  nearer than `Integer.MAX_VALUE`, every one of them is kept (`NearbyKeepsAll`). After all
  insertions the space code is forced into the last slot when the space bar qualified.

Files and modules:

- `candidates.dfy` (`Candidates`): the constants and the `Candidate` record. The
  record stands for what the collaborators answer about one key returned by the spatial
  index: key index, hit test, squared distance, primary code, and codes under the current
  shift state. It also defines `Config` (correction on/off, squared threshold), the
  value of the local `dist` (`Dist`) and the qualifying rule (`Qualifies`).
- `sorted_insertion.dfy` (`SortedInsertion`): one insertion into the pair of buffers,
  as a function on sequences.
- `key_selection.dfy` (`KeySelection`): what the candidate loop does to
  `primaryIndex`, `closestKey` and `closestKeyDist`, and which key is returned.
- `nearby_codes.dfy` (`NearbyCodes`): what the candidate loop does to the two
  buffers, the space override, and the buffer invariants.
- `proximity_key_detector.dfy` (`Detector`): the class `ProximityKeyDetector` with
  its `distances` array (`mDistances`). Its methods work in place on
  `array<int>`, with the loops of the source. Each method is proved equal to the
  functions above. `System.arraycopy`, `Arrays.fill` and the code-writing loop
  are small methods of their own.

Modelling decisions:

- `SPACE` is 32 and `NOT_A_KEY` is -1. The proofs only rely on `SPACE >= 0` and on
  `NOT_A_KEY` never being a key index (key indices are `nat`).
- "No keyboard bound" (`mKeyboard == null`) is the parameter `keyboardPresent`. In
  that case the method returns 0, which is distinct from `NOT_A_KEY`.
- `closestKeyDist = mProximityThresholdSquare + 1` is computed on a Java `int`, so it
  wraps to `Integer.MIN_VALUE` when the threshold is `Integer.MAX_VALUE`.
  `SaturatedThresholdPicksNoClosest` states what follows from that.
- `System.arraycopy` and `Arrays.fill` throw when a key's insertion window runs past
  the end of the buffer. The method therefore requires `AllFit`: no insertion window
  overruns. `CodesWithinCapacityFit` shows that it is enough for the qualifying keys to
  bring at most 36 codes in all.
- `AllFit` does not mean every qualifying key is kept. Keys are still lost silently in
  two ways. A key for which no slot is farther than its own distance is skipped. Codes
  shifted past the end are dropped. `FullBufferSkipsFartherKey` gives a case: 36 codes
  at distance 5 leave no room for a key at distance 7. `NearbyKeepsAll` shows that
  neither loss happens when the qualifying keys bring at most 36 codes and are all
  nearer than `Integer.MAX_VALUE`.
- Only keys within the threshold can become `closestKey`. An inside key that is farther
  than the threshold, with correction on, qualifies and is inserted, but never becomes
  `closestKey` (its `dist` is not below `threshold + 1`). It cannot change the
  result, because a hit always wins.

## Model

| member | source | states |
|---|---|---|
| `Candidates.Int32Succ` | ime/app/src/main/java/com/anysoftkeyboard/keyboards/views/ProximityKeyDetector.java:49 | `threshold + 1` on a Java `int`: the result is an `int` congruent to `x + 1` modulo 2^32, so `Integer.MAX_VALUE + 1` wraps to `Integer.MIN_VALUE` |
| `Candidates.Dist` | ime/app/src/main/java/com/anysoftkeyboard/keyboards/views/ProximityKeyDetector.java:57-64 | The local `dist` is a non-negative `int` for a well-formed candidate, and stays 0 when proximity correction is off (the squared distance is then never computed) |
| `Candidates.Qualifies` | ime/app/src/main/java/com/anysoftkeyboard/keyboards/views/ProximityKeyDetector.java:63-66 | Only a key whose primary code is at least `SPACE` qualifies. A key that misses the point qualifies only with correction on and strictly below the threshold. A printable key that contains the point always qualifies |
| `SortedInsertion.Repeat` | ime/app/src/main/java/com/anysoftkeyboard/keyboards/views/ProximityKeyDetector.java:86 | `Arrays.fill` on a window writes `n` copies of the value |
| `SortedInsertion.Sentinel` | ime/app/src/main/java/com/anysoftkeyboard/keyboards/views/ProximityKeyDetector.java:52 | The fill with `Integer.MAX_VALUE` leaves every slot empty, and an empty area is sorted |
| `SortedInsertion.InsertionPoint` | ime/app/src/main/java/com/anysoftkeyboard/keyboards/views/ProximityKeyDetector.java:79-80 | The slot found is the first whose distance is strictly greater than `dist`: every earlier slot is at most `dist`, so the new entry goes after equal distances; it is the buffer length when no slot is farther |
| `SortedInsertion.ShiftIn` | ime/app/src/main/java/com/anysoftkeyboard/keyboards/views/ProximityKeyDetector.java:82-83 | Moving a suffix right by the window size keeps the length, keeps the prefix, fills the window and drops what moves past the end |
| `SortedInsertion.Insert` | ime/app/src/main/java/com/anysoftkeyboard/keyboards/views/ProximityKeyDetector.java:79-88 | One insertion: with no farther slot both buffers are unchanged; otherwise the prefix `[0,j)` is unchanged, `[j,j+n)` holds the key's codes at distance `dist`, old `[j,N-n)` moves to `[j+n,N)`, and both lengths stay the same |
| `SortedInsertion.InsertKeepsSorted` | ime/app/src/main/java/com/anysoftkeyboard/keyboards/views/ProximityKeyDetector.java:79-88 | An insertion keeps the distance buffer non-decreasing |
| `SortedInsertion.InsertKeepsBound` | ime/app/src/main/java/com/anysoftkeyboard/keyboards/views/ProximityKeyDetector.java:79-88 | An insertion only writes `dist` or moves existing entries, so an upper bound on the distances that `dist` meets survives it |
| `KeySelection.Start` | ime/app/src/main/java/com/anysoftkeyboard/keyboards/views/ProximityKeyDetector.java:47-49 | Before the loop no key is found. The best distance starts above the threshold, or below every distance when `threshold + 1` wraps |
| `KeySelection.Track` | ime/app/src/main/java/com/anysoftkeyboard/keyboards/views/ProximityKeyDetector.java:57-72 | One candidate: the best distance never grows. `closestKey` and the best distance change only to a qualifying candidate's index and distance, and a qualifying candidate strictly nearer than the best so far always takes them. `primaryIndex` changes only to a candidate containing the point, and always does for one |
| `KeySelection.TrackAll` | ime/app/src/main/java/com/anysoftkeyboard/keyboards/views/ProximityKeyDetector.java:54-72 | After the loop the best distance is at most its start. `primaryIndex` is `NOT_A_KEY` or the index of a candidate containing the point; `closestKey` is `NOT_A_KEY` or the index of a qualifying candidate |
| `KeySelection.PrimaryKey` | ime/app/src/main/java/com/anysoftkeyboard/keyboards/views/ProximityKeyDetector.java:92-94 | The returned index is `NOT_A_KEY` or the index of a candidate that contains the point or qualifies |
| `KeySelection.NoInsideKeepsNoKey` | ime/app/src/main/java/com/anysoftkeyboard/keyboards/views/ProximityKeyDetector.java:47-61 | `primaryIndex` stays `NOT_A_KEY` when no candidate contains the point |
| `KeySelection.LastInsideWins` | ime/app/src/main/java/com/anysoftkeyboard/keyboards/views/ProximityKeyDetector.java:47-61 | `primaryIndex` ends as the key index of the last candidate that contains the point, whatever its primary code |
| `KeySelection.NoContenderNoClosest` | ime/app/src/main/java/com/anysoftkeyboard/keyboards/views/ProximityKeyDetector.java:48-72 | Without wrap-around, `closestKey` stays `NOT_A_KEY` and the best distance stays `threshold + 1` when no qualifying candidate is within the threshold |
| `KeySelection.NewcomerNearest` | ime/app/src/main/java/com/anysoftkeyboard/keyboards/views/ProximityKeyDetector.java:69-71 | A contender strictly nearer than the first nearest contender so far becomes the first nearest contender |
| `KeySelection.IncumbentNearest` | ime/app/src/main/java/com/anysoftkeyboard/keyboards/views/ProximityKeyDetector.java:69-71 | A candidate that is not a strictly nearer contender leaves the first nearest contender as it was, so ties keep the earlier key |
| `KeySelection.NearestAfterContender` | ime/app/src/main/java/com/anysoftkeyboard/keyboards/views/ProximityKeyDetector.java:63-72 | Once a contender has been seen, tracking one more candidate leaves `closestKey` and the best distance on the first nearest contender |
| `KeySelection.NearestAfterNone` | ime/app/src/main/java/com/anysoftkeyboard/keyboards/views/ProximityKeyDetector.java:63-72 | The first contender seen takes `closestKey` and the best distance, since it is below `threshold + 1` |
| `KeySelection.ClosestIsFirstNearest` | ime/app/src/main/java/com/anysoftkeyboard/keyboards/views/ProximityKeyDetector.java:48-72 | `closestKey` ends as the first qualifying candidate within the threshold at the smallest distance (ties keep the first), when there is one |
| `KeySelection.PrimaryKeySelection` | ime/app/src/main/java/com/anysoftkeyboard/keyboards/views/ProximityKeyDetector.java:47-94 | The returned key is the last inside candidate if any; else the first qualifying candidate at the strictly smallest distance; else `NOT_A_KEY` |
| `KeySelection.SaturatedThresholdPicksNoClosest` | ime/app/src/main/java/com/anysoftkeyboard/keyboards/views/ProximityKeyDetector.java:49 | With the threshold at `Integer.MAX_VALUE`, `threshold + 1` wraps and no candidate ever becomes `closestKey`: without a hit the result is `NOT_A_KEY` |
| `KeySelection.CorrectionOffNeedsHit` | ime/app/src/main/java/com/anysoftkeyboard/keyboards/views/ProximityKeyDetector.java:57-66 | With proximity correction off, `dist` stays 0 and a touch that hits no key returns `NOT_A_KEY` however close a key is |
| `KeySelection.ThresholdIsStrict` | ime/app/src/main/java/com/anysoftkeyboard/keyboards/views/ProximityKeyDetector.java:63-64 | Threshold 100: a key at squared distance 100 does not qualify, one at 99 does and is returned, in either order |
| `KeySelection.OverlappingKeysLastWins` | ime/app/src/main/java/com/anysoftkeyboard/keyboards/views/ProximityKeyDetector.java:59-61 | Two overlapping keys that both contain the point: the later one in candidate order is returned |
| `NearbyCodes.Step` | ime/app/src/main/java/com/anysoftkeyboard/keyboards/views/ProximityKeyDetector.java:63-88 | One candidate: the buffers stay paired and keep their length; a candidate that does not qualify leaves them unchanged |
| `NearbyCodes.Run` | ime/app/src/main/java/com/anysoftkeyboard/keyboards/views/ProximityKeyDetector.java:54-90 | The candidate loop never changes the length of either buffer |
| `NearbyCodes.HasSpace` | ime/app/src/main/java/com/anysoftkeyboard/keyboards/views/ProximityKeyDetector.java:50-77 | The flag raised in the loop is set exactly when some qualifying candidate has the space bar as its primary code |
| `NearbyCodes.Initial` | ime/app/src/main/java/com/anysoftkeyboard/keyboards/views/ProximityKeyDetector.java:51-52 | The call starts from the caller's codes and a distance area that is all empty and sorted |
| `NearbyCodes.Nearby` | ime/app/src/main/java/com/anysoftkeyboard/keyboards/views/ProximityKeyDetector.java:96-98 | When a qualifying candidate is the space bar, the last code slot holds `SPACE`; the distances and every other code slot are what the insertions left |
| `NearbyCodes.RunKeepsSorted` | ime/app/src/main/java/com/anysoftkeyboard/keyboards/views/ProximityKeyDetector.java:79-88 | The distances stay non-decreasing through every insertion of the loop |
| `NearbyCodes.RunAccounted` | ime/app/src/main/java/com/anysoftkeyboard/keyboards/views/ProximityKeyDetector.java:52-90 | Starting from the `MAX_VALUE` fill, every slot is still empty or holds the distance of a qualifying candidate beside one of that candidate's codes |
| `NearbyCodes.FitWithinFilled` | ime/app/src/main/java/com/anysoftkeyboard/keyboards/views/ProximityKeyDetector.java:82-86 | Each insertion lands within the slots already filled, because every later slot is still empty; so when the qualifying codes fit in the buffer, no window runs past its end |
| `NearbyCodes.CodesWithinCapacityFit` | ime/app/src/main/java/com/anysoftkeyboard/keyboards/views/ProximityKeyDetector.java:25-28 | At most 36 qualifying codes in all (the buffer capacity) is enough for no `arraycopy` or `fill` to throw |
| `NearbyCodes.InsertFillsPrefix` | ime/app/src/main/java/com/anysoftkeyboard/keyboards/views/ProximityKeyDetector.java:79-88 | When the filled slots come first, an insertion of a key nearer than `MAX_VALUE` fills exactly the next `nCodes` slots |
| `NearbyCodes.WindowStaysBefore` | ime/app/src/main/java/com/anysoftkeyboard/keyboards/views/ProximityKeyDetector.java:79-88 | A key no farther than the inserted one keeps its codes where they are |
| `NearbyCodes.WindowMovesAfter` | ime/app/src/main/java/com/anysoftkeyboard/keyboards/views/ProximityKeyDetector.java:82-83 | A key farther than the inserted one has its codes moved right by `nCodes` as a block, still inside the buffer |
| `NearbyCodes.InsertKeepsWindow` | ime/app/src/main/java/com/anysoftkeyboard/keyboards/views/ProximityKeyDetector.java:79-88 | An insertion that pushes no filled slot past the end keeps every earlier key's codes in the buffer at its distance |
| `NearbyCodes.InsertKeepsAll` | ime/app/src/main/java/com/anysoftkeyboard/keyboards/views/ProximityKeyDetector.java:79-88 | After one qualifying insertion that fits, the new key's codes and every earlier key's codes are in the buffer at their distances |
| `NearbyCodes.RunKeepsAll` | ime/app/src/main/java/com/anysoftkeyboard/keyboards/views/ProximityKeyDetector.java:54-90 | With room for all qualifying codes and all distances below `MAX_VALUE`, the loop fills exactly the next `QualifyingCodeCount` slots, and every qualifying key's codes are in the buffer side by side at its distance |
| `NearbyCodes.NearbyKeepsAll` | ime/app/src/main/java/com/anysoftkeyboard/keyboards/views/ProximityKeyDetector.java:52-98 | Completeness: with at most 36 qualifying codes, all nearer than `MAX_VALUE`, exactly the first `QualifyingCodeCount` distance slots are filled, every qualifying key's codes are in the buffer at its distance before the space override, and still after it when a slot is left over |
| `NearbyCodes.FullBufferSkipsFartherKey` | ime/app/src/main/java/com/anysoftkeyboard/keyboards/views/ProximityKeyDetector.java:79-89 | A key that qualifies is left out although no insertion throws: with 36 codes already at distance 5, a key at distance 7 finds no farther slot and its code is not in the buffer |
| `NearbyCodes.NearbyInvariant` | ime/app/src/main/java/com/anysoftkeyboard/keyboards/views/ProximityKeyDetector.java:52-98 | After a call the distances are non-decreasing. Each slot is empty, or holds a qualifying candidate's distance beside one of its codes; the exception is the last code slot, which may hold the space override |
| `NearbyCodes.CorrectionOffOnlyHits` | ime/app/src/main/java/com/anysoftkeyboard/keyboards/views/ProximityKeyDetector.java:57-66 | With correction off, only keys that contain the point enter the buffer, all at distance 0 |
| `NearbyCodes.NothingQualifiesLeavesEmpty` | ime/app/src/main/java/com/anysoftkeyboard/keyboards/views/ProximityKeyDetector.java:63-66 | When no candidate qualifies, both buffers are left as they were after the `MAX_VALUE` fill |
| `Detector.ArrayCopy` | ime/app/src/main/java/com/anysoftkeyboard/keyboards/views/ProximityKeyDetector.java:82-83 | `System.arraycopy` within one array: the destination range gets the old source range, as if copied through a temporary, and nothing else changes |
| `Detector.Fill` | ime/app/src/main/java/com/anysoftkeyboard/keyboards/views/ProximityKeyDetector.java:52 | `Arrays.fill` on a range: the range gets the value and nothing else changes |
| `Detector.WriteCodes` | ime/app/src/main/java/com/anysoftkeyboard/keyboards/views/ProximityKeyDetector.java:84-85 | The inner loop writes the key's codes into the window from `j` on and changes nothing else |
| `Detector.ProximityKeyDetector.constructor` | ime/app/src/main/java/com/anysoftkeyboard/keyboards/views/ProximityKeyDetector.java:28 | The working area is a fresh array of `MAX_NEARBY_KEYS` (36) slots |
| `Detector.ProximityKeyDetector.GetMaxNearbyKeys` | ime/app/src/main/java/com/anysoftkeyboard/keyboards/views/ProximityKeyDetector.java:35-37 | The advertised buffer size is the size of the working area |
| `Detector.ProximityKeyDetector.WriteWindow` | ime/app/src/main/java/com/anysoftkeyboard/keyboards/views/ProximityKeyDetector.java:81-86 | Shifting both arrays right from `j` and writing the codes and the distance into the window leaves exactly the shifted-in sequences |
| `Detector.ProximityKeyDetector.InsertAt` | ime/app/src/main/java/com/anysoftkeyboard/keyboards/views/ProximityKeyDetector.java:79-88 | The scan stops at the first slot farther than `dist`. The arrays then hold exactly `Insert` of their old contents, and are unchanged when there is no such slot |
| `Detector.ProximityKeyDetector.GetKeyIndexAndNearbyCodes` | ime/app/src/main/java/com/anysoftkeyboard/keyboards/views/ProximityKeyDetector.java:40-100 | With no keyboard it returns 0 and touches neither array. Otherwise it returns `PrimaryKey`, the same whether or not `allKeys` is null. With a null `allKeys` the distances are only reset; otherwise both arrays end as `Nearby` of the caller's codes (sorted insertion, then the space override) |

## Left out

- Touch normalisation (`getTouchX`, `getTouchY`), the `KeyDetector` base class and `getKeys`: the touch point is taken as already normalised. The base class's fields become parameters: `mKeyboard` is `keyboardPresent`, and `mProximityCorrectOn` with `mProximityThresholdSquare` is `Config`.
- The spatial index (`getNearestKeysIndices`) and the key geometry (`isInside`, `squaredDistanceFrom`) are not modelled. Their answers are the `Candidate` fields, given as inputs.
- `getCodeAtIndex` and `isShifted`: each candidate carries its codes already resolved for the shift state; `getCodesCount` is the length of that sequence.
- `KeyCodes` and `AnyKeyboardViewBase` are not part of this model; `SPACE` and `NOT_A_KEY` are constants here.
- The exceptions of `System.arraycopy` and `Arrays.fill` are not modelled as error results. The case that throws is excluded by the precondition `AllFit`.
- Detector.ProximityKeyDetector.GetKeyIndexAndNearbyCodes: requires `allKeys` to have exactly 36 slots, the size callers allocate from `getMaxNearbyKeys`. The Java code would also run with a longer array whose windows fit. It also requires `allKeys` to be a different array from the private `mDistances`, which no caller can reach.
- Overflow inside `squaredDistanceFrom` is outside the model: squared distances are given as non-negative Java `int` values.
- Reuse of `mDistances` across calls, rendering, threading, and the correction logic that consumes `allKeys`.
