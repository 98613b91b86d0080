# PPE compliance decision engine — Dafny model

This project models the decision core of a web front end for a
personal-protective-equipment (PPE) detector. Each camera frame or video
frame is sent to a detection service. The service reports persons, their
body parts (FACE, HEAD, LEFT_HAND, RIGHT_HAND) and the equipment seen on
each part. The core decides what to show.

- **Live path** (`LiveWindow`). Each poll pushes a `{ t, hasAlarm }` entry for
  the frame onto a scene buffer. Entries older than `max(30, 2 × window)`
  seconds are evicted. The entries of the last `max(0.5, window)` seconds then
  decide whether the people of this frame are published. The rule is "any"
  (some entry alarms) or "percentage" (the share of alarming entries reaches
  the threshold). An empty window publishes. Stopping the poll clears the
  results. The component is a class, `LiveDetector`, whose fields the poll
  and the toggle update.
- **Fixed-bucket aggregator** (`PpeChart`). For a playback time, the bucket is
  `[floor(t / ws) · ws, that + ws)`. Every person appearance in the bucket is
  tallied into per-id appearance and per-protection counters, keyed in order
  of first appearance. Each person then gets one synthetic body part per
  protection that passes the same any/percentage rule.
- **Alarm summary** (`AlarmSummary`). For each published person it counts the
  required body parts the window does not mark as covered, or uses the length
  of the frame-level missing list. It totals those counts and counts the
  persons with at least one. Nothing is rendered when that count is zero.
- **Video path** (`VideoUpload`). Frames go to the detector in batches of
  five. A failed detection becomes an empty result that keeps the frame's own
  timestamps. During playback the result shown is that of the first analysed
  frame within half a second.

`Policy` holds what the live path and the aggregator share:
- the JavaScript coercion `Number(x) || d`, where 0 and NaN fall back to the default;
- the window size;
- the percentage rule.

`Detection` holds the detector's records.

Numbers are exact reals. The clock (`Date.now() / 1000`), the detection
service and the person mapper's output are parameters of the operations.

## Model

| member | source | states |
|---|---|---|
| Policy.NumberOr | src/App.js:50-63 | `Number(x) || d`: a non-zero finite setting is used as is, 0 and NaN give the default; `WindowSize`, `MaxKeep` and `DefaultThresholdAlwaysMet` state its three uses |
| Policy.WindowSize | src/App.js:54 | the window is at least 0.5 s; a finite setting ≥ 0.5 is used as is, a non-zero one below 0.5 is raised to 0.5, and 0 or NaN fall back to 3 s |
| Policy.Threshold | src/App.js:63 | `Number(threshold) || 0`; by `DefaultThresholdAlwaysMet` an unset or zero threshold lets every non-empty window pass |
| Policy.PercentMeets | src/App.js:62-63 | `positives / n · 100 >= threshold`, with an equal percentage passing; `PercentMeetsCrossMultiplied` proves it equal to `positives · 100 ≥ threshold · n` and `PercentBounds` bounds the percentage to [0, 100] |
| Policy.PercentMeetsCrossMultiplied | src/App.js:62-63 | `positives / n · 100 >= threshold` holds exactly when `positives · 100 >= threshold · n` |
| Policy.PercentBounds | src/App.js:62 | the percentage of alarming entries lies between 0 and 100 |
| Policy.DefaultThresholdAlwaysMet | src/App.js:63 | with the threshold 0 or unset (`|| 0`), the percentage rule always holds |
| LiveWindow.MaxKeep | src/App.js:50 | the retention horizon is at least 30 s and at least twice the configured window, and it is one of the two |
| LiveWindow.WindowWithinRetention | src/App.js:50-54 | the decision window never reaches past the retention horizon |
| LiveWindow.Evict | src/App.js:51 | eviction never lengthens the buffer, and whatever is left starts with an entry not older than the cutoff |
| LiveWindow.EvictIsSuffix | src/App.js:51 | eviction removes only a prefix: what is left is a suffix of the buffer |
| LiveWindow.EvictDropsOnlyOld | src/App.js:51 | every entry eviction drops is older than the cutoff |
| LiveWindow.EvictLoop | src/App.js:51 | the `while … shift()` loop leaves exactly the eviction of the buffer |
| LiveWindow.WindowFrames | src/App.js:55 | the window filter never yields more entries than the buffer holds; `WindowFramesMembers` states which entries it keeps |
| LiveWindow.WindowFramesMembers | src/App.js:55 | an entry is in the window exactly when it is in the buffer and not older than `now − windowSize` |
| LiveWindow.AnyAlarm | src/App.js:59 | true exactly when some window entry alarms |
| LiveWindow.Positives | src/App.js:61 | counts the alarming entries: at most the window length, 0 exactly when none alarms, the length exactly when all do |
| LiveWindow.SceneAlarm | src/App.js:46 | a frame alarms exactly when one of its people does |
| LiveWindow.ShouldShow | src/App.js:56-65 | an empty window publishes; "any" publishes exactly when some entry alarms; otherwise it publishes exactly when the share of alarming entries, as a percentage, reaches the threshold (`PercentMeetsCrossMultiplied` turns that into `positives · 100 ≥ threshold · n`) |
| LiveWindow.Retained | src/App.js:45-51 | the buffer after one poll: push `{ t: now, hasAlarm }`, then evict below `now − maxKeep`; `PushedFrameIsLast` and `PollKeepsBufferSorted` state that the new entry is last and that order and the horizon hold |
| LiveWindow.Window | src/App.js:53-55 | the decision window of the retained buffer; `WindowWithinRetained`, `WindowHoldsNewFrame` and `WindowSameBeforeAndAfterEviction` state what it holds |
| LiveWindow.EvictKeepsSorted | src/App.js:48-51 | eviction keeps a time-ordered buffer time-ordered |
| LiveWindow.EvictSortedAboveCutoff | src/App.js:51 | on a time-ordered buffer, nothing older than the cutoff survives eviction |
| LiveWindow.PushedFrameIsLast | src/App.js:48-51 | the frame just pushed survives eviction and is the last entry |
| LiveWindow.PollKeepsBufferSorted | src/App.js:45-51 | with a non-decreasing clock, a poll keeps the buffer time-ordered and drops every entry older than `now − maxKeep` |
| LiveWindow.EvictionKeepsWindow | src/App.js:51-55 | evicting below the window's lower edge does not change the window |
| LiveWindow.WindowSameBeforeAndAfterEviction | src/App.js:48-55 | the decision window is the same whether it is taken before or after eviction |
| LiveWindow.WindowHoldsNewFrame | src/App.js:48-57 | the frame just pushed is in the window, so the window is never empty after a poll |
| LiveWindow.WindowWithinRetained | src/App.js:55 | every window entry is a retained entry within the window size of `now` |
| LiveWindow.Decide | src/App.js:45-65 | one successful poll's buffering and decision: the buffer becomes the pushed-and-evicted buffer, and the decision is the rule applied to its trailing window |
| LiveWindow.LiveDetector.constructor | src/App.js:21-28 | the detector starts with an empty buffer and no results or error, not polling |
| LiveWindow.LiveDetector.GetSnapshot | src/App.js:35-75 | on success the buffer becomes the retained buffer with the new frame; the results are the people if polling and the window publishes, else empty; it reschedules exactly when polling. On failure only the error is recorded. `iterating` never changes |
| LiveWindow.LiveDetector.ToggleRekognition | src/App.js:93-99 | flips polling and starts a poll when it turns on; turning it off clears the results; the buffer and the error are untouched |
| PpeChart.FindPart | src/components/PPEChart.js:28 | `BodyParts.find` by name; `FindPartFirst` states that it yields nothing exactly when no part has the name, and otherwise the first part that has it |
| PpeChart.FindPartFirst | src/components/PPEChart.js:28 | the lookup finds nothing exactly when no part has the name, and otherwise the first part with it |
| PpeChart.SomeAccepted | src/components/PPEChart.js:34 | true exactly when some equipment entry carries a tag accepted for the protection |
| PpeChart.HasPPEInFrame | src/components/PPEChart.js:27-62 | `hasPPEInFrame(person, type)`; `HasPPEInFrameExactly` states when it holds |
| PpeChart.HasPPEInFrameExactly | src/components/PPEChart.js:27-62 | a person wears a protection in a frame exactly when body parts are given, the first part with the protection's name has an equipment list, and that list holds an accepted tag |
| PpeChart.HasPPE | src/components/PPEChart.js:123-138 | `hasPPE(person, type)` on an aggregated person; `HasPPERoundTrip` states that on synthetic body parts it reads back exactly the presence decision |
| PpeChart.Counts.Increment | src/components/PPEChart.js:72 | bumps one protection's counter by one and leaves the others |
| PpeChart.CountPresence | src/components/PPEChart.js:71-73 | every protection's counter goes up by one exactly when the person wears it in this frame |
| PpeChart.BucketStart | src/components/PPEChart.js:13-14 | `Math.floor(currentTime / ws) * ws`; `BucketContains` states that the bucket holds the playback time and `BucketInvariance` that times in one bucket agree |
| PpeChart.BucketContains | src/components/PPEChart.js:13-15 | the playback time lies in its bucket: `windowStart ≤ t < windowEnd` |
| PpeChart.InBucket | src/components/PPEChart.js:17-19 | the bucket filter never yields more frames than it is given; `InBucketMembers` states which frames it keeps |
| PpeChart.InBucketMembers | src/components/PPEChart.js:17-19 | a frame is selected exactly when its timestamp lies in `[windowStart, windowEnd)` |
| PpeChart.Ids | src/components/PPEChart.js:66-68 | the tally visits one id per person occurrence, in order |
| PpeChart.Dedup | src/components/PPEChart.js:66-79 | the Map's keys are exactly the ids seen, each once |
| PpeChart.DedupFirstAppearanceOrder | src/components/PPEChart.js:66-79 | the Map's keys come in order of first appearance |
| PpeChart.Presence | src/components/PPEChart.js:82-85 | "any" passes exactly when the count is positive; otherwise it passes exactly when `count · 100 ≥ threshold · appearances` |
| PpeChart.TypeCountAtMostAppearances | src/components/PPEChart.js:69-73 | no protection is counted more often than the person appears |
| PpeChart.AppearancesPositiveIffSeen | src/components/PPEChart.js:69 | a person's appearance count is positive exactly when the id occurs |
| PpeChart.IdsOfFrames | src/components/PPEChart.js:66-68 | an id is tallied exactly when some frame of the bucket shows a person with it |
| PpeChart.IdsAppend | src/components/PPEChart.js:68 | one more occurrence appends its id |
| PpeChart.OrderAppend | src/components/PPEChart.js:69 | one more occurrence adds a new key at the end and leaves the key order alone for a known id |
| PpeChart.AppearancesAppend | src/components/PPEChart.js:69 | one more occurrence bumps exactly its own id's appearance count |
| PpeChart.CountsAppend | src/components/PPEChart.js:70-74 | one more occurrence bumps exactly its own id's counters, by what it wears |
| PpeChart.CountsOfUnseen | src/components/PPEChart.js:70 | an id not yet seen has every counter at zero, as the `|| { MASK: 0, … }` default gives |
| PpeChart.AppearanceMapAppend | src/components/PPEChart.js:69 | one more occurrence changes `personAppearances` at its own id only, to its new appearance count |
| PpeChart.CountsMapAppend | src/components/PPEChart.js:70-74 | one more occurrence changes `ppeCounts` at its own id only, to its new counters |
| PpeChart.CountsAfterPresence | src/components/PPEChart.js:70-73 | the counters built for an occurrence are its id's counters over the occurrences so far, including this one |
| PpeChart.SyntheticBodyParts | src/components/PPEChart.js:87-100 | the `bodyParts` built from the presence booleans; `SyntheticPartsOrdered` and `HasPPERoundTrip` state its order and that each part reads back as its protection |
| PpeChart.AggregatePerson | src/components/PPEChart.js:79-102 | one aggregated `{ Id, BodyParts }` entry; `WindowPersonPresence` states that it wears a protection exactly when its counts pass the rule |
| PpeChart.HasPPERoundTrip | src/components/PPEChart.js:88-138 | reading a protection back from the synthetic body parts gives exactly the presence decision for it |
| PpeChart.SyntheticPartsOrdered | src/components/PPEChart.js:88-100 | there is one synthetic part per passing protection, in FACE, HEAD, LEFT_HAND, RIGHT_HAND order |
| PpeChart.WindowResults | src/components/PPEChart.js:12-106 | the specification of `getCurrentWindowResults`; `WindowBounds`, `BucketInvariance`, `WindowPersonIds` and `WindowPersonPresence` state its properties, and `GetCurrentWindowResults` is proved equal to it |
| PpeChart.BucketResults | src/components/PPEChart.js:17-21 | the result for one bucket: `{ Persons: [] }` when empty, otherwise the aggregated persons with `windowStart` and `windowEnd`; stated by `WindowBounds` |
| PpeChart.Aggregated | src/components/PPEChart.js:79-103 | one entry per distinct id, in first-appearance order; stated by `WindowPersonIds` and `WindowPersonPresence` |
| PpeChart.WindowBounds | src/components/PPEChart.js:13-105 | the bucket holds the playback time; an empty bucket yields no persons and no bounds, a non-empty one yields the bounds |
| PpeChart.BucketInvariance | src/components/PPEChart.js:14 | two playback times in the same bucket give the same result |
| PpeChart.WindowPersonIds | src/components/PPEChart.js:66-79 | the aggregated persons have distinct ids, in order of first appearance, and an id is listed exactly when some frame of the bucket shows it |
| PpeChart.WindowPersonPresence | src/components/PPEChart.js:79-102 | each listed person appeared at least once, and wears a protection exactly when its count over its appearances passes the rule |
| PpeChart.TallyPerson | src/components/PPEChart.js:68-74 | one person's tally step keeps both Maps and their key order equal to the counts over the occurrences so far |
| PpeChart.TallyFrame | src/components/PPEChart.js:67-75 | one frame's persons keep the tally exact |
| PpeChart.TallyBucket | src/components/PPEChart.js:24-76 | after the nested loops the Maps hold exactly each id's appearances and protection counts over the bucket, keyed in first-appearance order |
| PpeChart.AggregatedEntry | src/components/PPEChart.js:79-80 | for every key of the tallied Maps, the entry built from `appearances` and `ppeCounts.get(pid) || zeros` is the specified one |
| PpeChart.AggregateAll | src/components/PPEChart.js:79-103 | the aggregation emits, per key in order, the person built from its tallied counts |
| PpeChart.GetCurrentWindowResults | src/components/PPEChart.js:12-106 | the imperative aggregator computes exactly the bucket specification `WindowResults` |
| AlarmSummary.MissingAmong | src/components/AlarmSummary.js:9-13 | at most one per key; 0 exactly when every key is present in the window, the number of keys exactly when none is |
| AlarmSummary.MissingAmongCountsMissingKeys | src/components/AlarmSummary.js:4-13 | for distinct keys, the fold counts exactly the set of keys that are absent or not `present === true` |
| AlarmSummary.MissingCount | src/components/AlarmSummary.js:7-17 | with compliance data the count is in [0, 4] and is 0 exactly when every required part is present; without it, the missing list's length, or 0 |
| AlarmSummary.MissingCountIsMissingRequiredParts | src/components/AlarmSummary.js:4-13 | with compliance data the count is the number of required parts not marked present |
| AlarmSummary.AdjustedMissingCounts | src/components/AlarmSummary.js:19 | one adjusted count per person; `Render` and `TotalBoundedByRequiredParts` state what its counts give |
| AlarmSummary.Sum | src/components/AlarmSummary.js:20 | the total of the counts; `NoPositiveIffZeroSum` states that it is 0 exactly when every count is, and `CountPositiveAtMostSum` that it bounds the persons with alarms |
| AlarmSummary.CountPositive | src/components/AlarmSummary.js:21 | persons with alarms never outnumber persons |
| AlarmSummary.CountPositiveAtMostSum | src/components/AlarmSummary.js:20-21 | persons with alarms never exceed the total of missing items |
| AlarmSummary.NoPositiveIffZeroSum | src/components/AlarmSummary.js:20-21 | no person has an alarm exactly when the total is zero, exactly when every count is zero |
| AlarmSummary.Render | src/components/AlarmSummary.js:19-26 | nothing is rendered exactly when every person's count is zero; otherwise 1 ≤ people with alarms ≤ persons, and people with alarms ≤ total |
| AlarmSummary.RenderNothingIffNoMissing | src/components/AlarmSummary.js:19-26 | nothing is rendered exactly when the total is zero; otherwise the banner shows the total and the number of persons with alarms |
| AlarmSummary.TotalBoundedByRequiredParts | src/components/AlarmSummary.js:4-20 | when every person has compliance data, the total is at most four per person |
| VideoUpload.NearFrames | src/components/VideoUpload.js:211-213 | the filter never yields more frames than it is given |
| VideoUpload.NearFramesMembers | src/components/VideoUpload.js:211-213 | the filter keeps exactly the analysed frames with `|timestamp − currentTime| < 0.5` |
| VideoUpload.NearFramesKeepsOrder | src/components/VideoUpload.js:211-213 | filtering a concatenation is the concatenation of the filtered parts, so the kept frames stay in their original order |
| VideoUpload.GetCurrentFrameResults | src/components/VideoUpload.js:210-218 | the result shown at the playback time; `CurrentFrameIsFirstNear` states that it is the earliest near frame's result, or `{ Persons: [] }` when none is near |
| VideoUpload.CurrentFrameIsFirstNear | src/components/VideoUpload.js:210-218 | the result shown is the earliest analysed frame within 0.5 s of the playback time, or `{ Persons: [] }` when there is none |
| VideoUpload.Analyse | src/components/VideoUpload.js:110-136 | a frame's entry carries its own timestamp and time, and the detector's result or, on failure, `{ Persons: [] }` |
| VideoUpload.AnalyseBatch | src/components/VideoUpload.js:105-139 | a batch's results are its frames' analyses, in batch order |
| VideoUpload.ProcessVideoFrames | src/components/VideoUpload.js:100-150 | one result per frame, the k-th being the k-th frame's analysis, so a failed frame affects no other |

## Left out

- Rendering (JSX, tables, badges, Spanish titles, `getPersonId`), authentication, navigation and settings UI are not part of this model.
- Webcam capture, `getBoundingClientRect`, frame extraction from the video element, `FileReader`/base64 conversion and the detection gateway are I/O. The detector is a parameter: a `Result` for the live poll, a function from image bytes for the video path.
- The person mapper (`ppeMapper`) is not part of this model. Its outputs `hasAlarm`, `ppeCompliance` and `missingPPE` are inputs.
- Timers are not modelled: the 300 ms re-poll, the 50 ms pause between batches and the progress percentage. `GetSnapshot` returns whether it reschedules, and `ToggleRekognition` returns whether it starts a poll.
- `Promise.all` concurrency inside a batch is not modelled. Its results come back in batch order, which is what the model states.
- Numbers are exact reals, not IEEE doubles. Rounding in `positives / n · 100` and in `floor(t / ws) · ws` is not modelled. The settings are finite numbers or NaN; an infinite setting is not modelled.
- `present` values other than a boolean become `None`, which counts as "not present", as `=== true` does.
- Null persons in `testResults` are not modelled.
- Any detection-method string other than `"any"` behaves as percentage, as in the source's `else` branch. The model has two methods.
- The live code keeps no per-person or per-body-part buffers, no "compliant" flag, no fallback for an empty window and no people table listed regardless of the decision. It keeps one scene buffer of `hasAlarm` entries and publishes the frame's people only when the window rule passes. The model has exactly that and no more.
- On a failed poll the source records the error and does not reschedule, while `iterating` stays set. The model states exactly that.
- LiveWindow.LiveDetector.GetSnapshot: its contract does not state that the buffer stays time-ordered. That property is `PollKeepsBufferSorted`, stated on the function that defines the new buffer.
