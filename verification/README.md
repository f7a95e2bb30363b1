# Tampere traffic monitoring: a Dafny model of the core

This project models the parts of the Tampere traffic monitoring system whose
behaviour can be stated precisely, and proves properties of them. The parts are:

- **LightStatus** (`status.dfy`) decodes the single-character GRINT signal
  state into red, green or other, and rejects anything else.
- **SignalGroups** (`signal_group.dfy`) is the per-signal-group state machine.
  It turns successive status codes into completed "red, green, red again"
  cycle events with three timestamps. The package copy and the `build/lib`
  copy of the class have the same logic, and this one module models both.
- **ApiClient** (`api_client.dfy`) is the polling client:
  - per-response dispatch into the table keyed by (device, group name), in
    batch mode (collect events, store them) and in callback mode (report
    every status change);
  - the polling-interval check and the `active` flag;
  - the store.

  HTTP responses are an abstract `Response` datatype. The database is an
  append-only sequence of events. Timestamps are an opaque type.
- **Geometry** (`geometry.dfy`) holds:
  - the orientation test;
  - the gift-wrapping (Jarvis march) convex hull on integer points;
  - the "did adding the point grow the hull" inside test.

  The order that `list(set(points))` produces is an input (`order`): any
  duplicate-free arrangement of the points. The march runs with a fuel bound
  and returns `None` when it does not come back to its start.
  `Geometry.ColinearMarchNeverReturns` proves that the source's loop really
  does not terminate on some inputs: four or more distinct points on one
  horizontal line whose smallest point is not among the first two.
- **FrameCache** (`frame_cache.dfy`) is the time-indexed frame cache:
  - a 200-entry FIFO of timestamps next to a timestamp-to-frame dictionary;
  - the nearest-timestamp search (first index on ties);
  - the frame lookup.

  Three copies of this logic exist: the stream reader class, the object
  detector script and `asd.py`. This one module models all three. Frames are
  an opaque type.
- **StreamReader** (`stream_reader.dfy`) is the consumer step that caches at
  most one frame every half second. The clock reading is a parameter of each
  step.
- **Detections** (`detections.dfy`) is the class filter applied to the
  detector's (box, score, class) triples.
- **Wrappers** (`wrappers.dfy`) holds `Option`, `Result` and two sequence
  helpers.

Exceptions of the source become `Failure` values of `Result`, and `None`
returns become `Option` or a dedicated constructor. When a response's
dispatch raises partway through, the model returns the table with the
groups updated before the error, as the source leaves it. The one other
place where the source changes state before raising is the consumer step
(`StreamReader.Consume`): it sets the latest-frame time and then lets the
cache's store raise. There the model returns a bare `Failure`, because the
exception ends the consumer thread, and `StreamReader.FromStart` proves that
a fresh reader never reaches that path. The cache's own store raises before
it changes anything, and the model's `Failure` leaves it unchanged.

## Model

| member | source | states |
|---|---|---|
| LightStatus.Decode | BusinessTampereTrafficMonitoring/traffic_lights/status.py:46-53 | Rejects exactly the inputs that are not a single character in '0'..'J', with the offending string. Every accepted code gets the status of its documented GRINT meaning: red for red, red/amber and red-no-demand; green for green, blinking green and amber after green; other for the rest. |
| SignalGroups.Create | BusinessTampereTrafficMonitoring/traffic_lights/signal_group.py:12-18 | Fails exactly when the code is invalid. Otherwise it keeps device and name and takes the decoded status. The red start is the timestamp exactly when the status is red, the green start is unset, and the group satisfies the invariant. |
| SignalGroups.Update | BusinessTampereTrafficMonitoring/traffic_lights/signal_group.py:37-75 | Fails exactly on an invalid code. An unchanged status changes nothing and reports nothing. An event is reported exactly on a change to red while a green start is known, and it is (device, name, red start, green start, now). The new status is the decoded one. The invariant is preserved, and events from valid groups carry a red start. |
| SignalGroups.ChangeToOtherClears | build/lib/BusinessTampereTrafficMonitoring/traffic_lights/signal_group.py:38-40 | A change to other clears both phase starts and reports nothing. |
| SignalGroups.ChangeToGreen | build/lib/BusinessTampereTrafficMonitoring/traffic_lights/signal_group.py:41-47 | A change to green keeps the red start, records the green start exactly when a red start is known, and reports nothing. |
| SignalGroups.ChangeToRed | build/lib/BusinessTampereTrafficMonitoring/traffic_lights/signal_group.py:48-57 | A change to red restarts the red phase at the observation time, clears the green start, and reports an event exactly when a green start was known. |
| SignalGroups.EventHasRedStart | BusinessTampereTrafficMonitoring/traffic_lights/signal_group.py:66-72 | Under the invariant an event arises only on green to red, and it carries the group's red start, which is set. |
| SignalGroups.RunKeepsValid | BusinessTampereTrafficMonitoring/traffic_lights/signal_group.py:50-75 | Any sequence of updates from a valid group keeps the invariant, and every event it reports has a red start. |
| SignalGroups.CycleRoundTrip | tests/traffic_lights_test.py:20-38 | Red at t0, red at t1, green at t2, green at t3, red at t4 reports exactly the one event (t0, t2, t4) and leaves the group red from t4. |
| SignalGroups.InterruptedCycle | tests/traffic_lights_test.py:69-76 | Going to other between green and red cancels the cycle: no event, and the group is red from the last observation. |
| ApiClient.Dispatch | BusinessTampereTrafficMonitoring/traffic_lights/api_client.py:73-82 | The loop over one response's signal groups succeeds exactly when every reading's code is valid. On failure, the ValueError names the invalid code of one of the readings. On success, there is at most one event per reading. |
| ApiClient.DispatchFrame | BusinessTampereTrafficMonitoring/traffic_lights/api_client.py:70-79 | Table keys only grow, and only by (response device, group name) keys; when the response is fully processed, they grow by exactly those keys. Entries under other keys are unchanged. |
| ApiClient.DispatchKeepsValid | BusinessTampereTrafficMonitoring/traffic_lights/api_client.py:73-82 | Dispatch keeps every stored group valid and stored under its own key. Every reported event belongs to the response's device, names a group of the response, and carries a red start. |
| ApiClient.DispatchSplit | BusinessTampereTrafficMonitoring/traffic_lights/api_client.py:73-82 | Events come out in response order. Dispatching a + b is dispatching a, then b on the resulting table, with the event lists concatenated; a failure in a stops before b. |
| ApiClient.DispatchKnownGroup | BusinessTampereTrafficMonitoring/traffic_lights/api_client.py:78-81 | A reading for a known group stores the updated group and contributes exactly its update's event, if any. |
| ApiClient.FirstSightingNoEvents | BusinessTampereTrafficMonitoring/traffic_lights/api_client.py:76-77 | Readings for unseen groups report no event, and each group is stored as created from the response's timestamp and its code. |
| ApiClient.UpdateDeviceState | BusinessTampereTrafficMonitoring/traffic_lights/api_client.py:64-82 | A failed fetch gives `None` and leaves the table unchanged. A successful one never gives `None`, leaves other devices' groups unchanged, and keeps the table valid. |
| ApiClient.Listen | BusinessTampereTrafficMonitoring/traffic_lights/api_client.py:154-164 | Callback mode updates the table exactly as batch mode does and fails exactly when batch mode would. It makes at most one call per reading, each for the response's device and time and a group of the response. Which calls are made is stated by `ListenSplit` and `ListenReportsChanges`. |
| ApiClient.ListenSplit | BusinessTampereTrafficMonitoring/traffic_lights/api_client.py:154-164 | Calls come out in response order. Listening to a + b is listening to a, then to b on the resulting table, with the calls concatenated. An invalid code in a ends the loop there and keeps the calls already made. |
| ApiClient.ListenReportsChanges | BusinessTampereTrafficMonitoring/traffic_lights/api_client.py:154-164 | For any response that names each group once and has only valid codes, the loop completes. It calls back exactly once for each known group whose decoded status differs from the stored one, with the new status, in response order. A first sighting never calls back. |
| ApiClient.ListenFiresOnChange | BusinessTampereTrafficMonitoring/traffic_lights/api_client.py:159-164 | For a known group, the callback fires exactly when the code is valid and its decoded status differs from the stored one, and it receives the new status. An invalid code is reported and makes no call. |
| ApiClient.InvalidCodeChangesNothing | BusinessTampereTrafficMonitoring/traffic_lights/api_client.py:73-79 | When the next reading's code is invalid, decoding raises before the group is created or updated (signal_group.py:16, :50). Batch and callback mode both leave the table exactly as it was, make no call, and report that code. With the split lemmas this fixes the error path of any response. |
| ApiClient.ListenSilentOnFirstSighting | BusinessTampereTrafficMonitoring/traffic_lights/api_client.py:157-158 | A group seen for the first time never triggers the callback, whatever its code (the one-reading case, invalid codes included). |
| ApiClient.NewClient | BusinessTampereTrafficMonitoring/traffic_lights/api_client.py:40-50 | A new client keeps its device list, is inactive and tracks no group. |
| ApiClient.StartLoop | BusinessTampereTrafficMonitoring/traffic_lights/api_client.py:116-118 | A non-positive interval is rejected before the client becomes active. Otherwise the client becomes active and nothing else changes. |
| ApiClient.StopPolling | BusinessTampereTrafficMonitoring/traffic_lights/api_client.py:167-172 | After stopping, the client is inactive and its devices and groups are unchanged. |
| ApiClient.StopPollingIdempotent | tests/traffic_lights_test.py:155-157 | Stopping twice is the same as stopping once. |
| ApiClient.StoreBatches | BusinessTampereTrafficMonitoring/traffic_lights/api_client.py:92-103 | Storing batch after batch is storing their concatenation. |
| ApiClient.StoreAsWritten | BusinessTampereTrafficMonitoring/traffic_lights/api_client.py:92-101 | As written, only the empty batch succeeds (and stores nothing); every other batch raises a TypeError. |
| ApiClient.StoreAsWrittenLosesEvents | BusinessTampereTrafficMonitoring/traffic_lights/api_client.py:99-101 | A one-event batch fails as written, while the corrected store appends it. |
| ApiClient.Store | tests/traffic_lights_test.py:126-137 | The corrected store: an empty batch leaves the store alone, and a non-empty one is appended in order. |
| ApiClient.CollectRound | BusinessTampereTrafficMonitoring/traffic_lights/api_client.py:121-123 | One batch round succeeds only if every fetch succeeded; the table stays valid and every collected event has a red start. Which events are collected is stated by `CollectRoundOne` and `CollectRoundSplit`. |
| ApiClient.CollectRoundOne | BusinessTampereTrafficMonitoring/traffic_lights/api_client.py:122-123 | For one device: a failed fetch is a TypeError, because `extend(None)` raises. An OK response leaves the table as that device's dispatch does. It gives exactly that dispatch's events, or its ValueError. |
| ApiClient.CollectRoundSplit | BusinessTampereTrafficMonitoring/traffic_lights/api_client.py:121-123 | Events are concatenated in monitored-device order. A round over a + b is a round over a, then over b on the resulting table. An error in a ends the round there. |
| ApiClient.PollRound | BusinessTampereTrafficMonitoring/traffic_lights/api_client.py:119-126 | One polling round with the corrected store (see Findings). It takes one response per monitored device, in order. The table ends as the round's collection leaves it, and the devices and the flag are kept. The round succeeds exactly when the collection does. It then appends exactly the collected events to the store, and otherwise appends nothing. The table stays valid, and every appended event has a red start. |
| ApiClient.ListenDeviceAsWritten | BusinessTampereTrafficMonitoring/traffic_lights/api_client.py:146-151 | As written, a successful fetch raises a TypeError before any group is looked at, and a failed fetch returns. Either way no group changes and no callback fires. |
| ApiClient.ListenDevice | BusinessTampereTrafficMonitoring/traffic_lights/api_client.py:145-164 | Corrected callback mode for one response: a failed fetch returns with nothing changed. A successful one updates the table as batch mode does, continues exactly when batch mode would give events, and keeps the table valid. |
| ApiClient.ListenAsWrittenMissesChange | BusinessTampereTrafficMonitoring/traffic_lights/api_client.py:151 | A red group turning green reaches the callback only in the corrected version. |
| ApiClient.ListenRound | BusinessTampereTrafficMonitoring/traffic_lights/api_client.py:144-164 | One round of callback mode with the corrected timestamp conversion (see Findings). It keeps the table valid. It runs to the end only if every fetch succeeded, and then leaves the table as a batch round would. |
| ApiClient.ListenRoundOne | BusinessTampereTrafficMonitoring/traffic_lights/api_client.py:145-164 | A callback round over one device's response is corrected callback mode for that response. |
| ApiClient.ListenRoundSplit | BusinessTampereTrafficMonitoring/traffic_lights/api_client.py:145-164 | Calls come out device by device, in monitored-device order. When the callback round over a runs to its end, a round over a + b is the round over a, then the round over b on the resulting table, with the calls concatenated. |
| ApiClient.ListenRoundStops | BusinessTampereTrafficMonitoring/traffic_lights/api_client.py:147-149 | When a failed fetch or an invalid code ends the round over a, a round over a + b ends at the same point with the same table and calls. |
| ApiClient.ListenRoundAgreesWithBatch | BusinessTampereTrafficMonitoring/traffic_lights/api_client.py:119-164 | When a callback round runs to its end, the batch round over the same responses succeeds and leaves the same table. |
| Geometry.Orient | BusinessTampereTrafficMonitoring/tools/geometry.py:20-26 | The source's sign test agrees with the triangle's signed area: counterclockwise exactly for positive area, colinear for zero, clockwise for negative. |
| Geometry.OrientDegenerate | BusinessTampereTrafficMonitoring/tools/geometry.py:54-56 | A turn through a repeated point is colinear. |
| Geometry.OrientReverse | BusinessTampereTrafficMonitoring/tools/geometry.py:10-26 | Reversing a triangle swaps clockwise and counterclockwise and keeps colinear. |
| Geometry.OrientRotate | BusinessTampereTrafficMonitoring/tools/geometry.py:10-26 | Rotating a triangle's vertices keeps its orientation. |
| Geometry.LexMin | BusinessTampereTrafficMonitoring/tools/geometry.py:46 | `min(points)` is an input point lexicographically at most every input point. |
| Geometry.Scan | BusinessTampereTrafficMonitoring/tools/geometry.py:53-59 | The inner scan ends with the best point it started with or with one of the scanned points. Its update rule and one-pass property are stated by `ScanSnoc` and `ScanOnePass`. |
| Geometry.ScanOnePass | BusinessTampereTrafficMonitoring/tools/geometry.py:53-59 | The scan ends with the candidate it picked last, or with its starting best point if it picked none. The result is not the current vertex unless nothing was scanned after the last pick. No candidate scanned after the last pick lies counterclockwise of the edge from the current vertex to the result. |
| Geometry.ScanSnoc | BusinessTampereTrafficMonitoring/tools/geometry.py:53-59 | Scanning one more candidate applies the update rule once more: the candidate replaces the result so far exactly when that result is the current vertex or the candidate lies counterclockwise of the edge to it. |
| Geometry.ScanAvoidsCurrent | BusinessTampereTrafficMonitoring/tools/geometry.py:53-59 | A scan whose best point starts off different from the current vertex never ends on the current vertex. |
| Geometry.Successor | BusinessTampereTrafficMonitoring/tools/geometry.py:53-60 | The next vertex, found by scanning from the first point, is one of the points. |
| Geometry.SuccessorOnePass | BusinessTampereTrafficMonitoring/tools/geometry.py:51-60 | The next vertex is the point the scan from the first point picked last. No point enumerated after that pick lies counterclockwise of the edge from the current vertex to the next vertex. |
| Geometry.SuccessorMoves | BusinessTampereTrafficMonitoring/tools/geometry.py:51-59 | With two or more distinct points, the next vertex differs from the current one. |
| Geometry.Walk | BusinessTampereTrafficMonitoring/tools/geometry.py:48-62 | A march that comes back to its start within the fuel returns between one and fuel vertices. The first is the starting vertex, and the rest are points of the input. |
| Geometry.WalkShape | BusinessTampereTrafficMonitoring/tools/geometry.py:48-62 | A returned march is a walk: each vertex after the first is the successor of the one before and is not the start, and the successor of the last vertex is the start. |
| Geometry.WalkHasNoRepeats | BusinessTampereTrafficMonitoring/tools/geometry.py:48-62 | A completed march never visits a vertex twice. |
| Geometry.ConvexHull | BusinessTampereTrafficMonitoring/tools/geometry.py:37-64 | Fewer than four distinct points come back as the deduplicated points. Otherwise a returned hull has at least two vertices, starts at the lexicographic minimum, contains only input points and repeats none. |
| Geometry.HullFuelSuffices | BusinessTampereTrafficMonitoring/tools/geometry.py:48-62 | Whenever the source's loop stops, the fuel-bounded model returns that very hull. |
| Geometry.ColinearMarchNeverReturns | BusinessTampereTrafficMonitoring/tools/geometry.py:48-62 | For four or more distinct points on one horizontal line whose smallest is not among the first two enumerated, the march never comes back, for any fuel. |
| Geometry.PointInside | BusinessTampereTrafficMonitoring/tools/geometry.py:67-78 | A polygon with fewer than three distinct points has nothing inside. A point lexicographically below every polygon point is never reported inside. |
| FrameCache.Store | BusinessTampereTrafficMonitoring/stream_reader/stream_reader.py:49-60 | Fails, with the key, exactly when the queue is full and its oldest timestamp is no longer in the dictionary. Otherwise the queue is the old one (minus its oldest when full) followed by the new timestamp, and the new frame is stored under it. The length becomes min(old+1, 200). Every other stored frame is unchanged. Below capacity all old frames stay. At capacity, exactly the oldest timestamp's frame is removed, and every other frame stays. |
| FrameCache.StoreFresh | BusinessTampereTrafficMonitoring/object_detector/object_detector.py:14-25 | Storing a timestamp not yet queued into a consistent cache succeeds and keeps it consistent: no duplicates, dictionary keys equal to the queued timestamps, at most 200. The queue becomes the last 200 of the old queue plus the new timestamp. |
| FrameCache.WindowAppend | BusinessTampereTrafficMonitoring/stream_reader/stream_reader.py:56-58 | Evicting to the last 200 step by step equals taking the last 200 of the whole history. |
| FrameCache.StoreAllWindow | BusinessTampereTrafficMonitoring/stream_reader/stream_reader.py:56-60 | Any run of stores with distinct new timestamps succeeds, stays consistent, and queues exactly the last 200 timestamps of the whole history. |
| FrameCache.StoreAllKeepsOld | asd.py:9-14 | Over such a run, a frame that was cached and is still cached keeps its frame. |
| FrameCache.StoreAllFrames | BusinessTampereTrafficMonitoring/stream_reader/stream_reader.py:59-60 | Over such a run, every arrival still in the window maps to the frame that arrived with it. |
| FrameCache.NearestIndex | BusinessTampereTrafficMonitoring/stream_reader/stream_reader.py:46 | The argmin: an index whose distance to the value is minimal and strictly smaller than at every earlier index. |
| FrameCache.FindNearest | BusinessTampereTrafficMonitoring/stream_reader/stream_reader.py:41-47 | An empty array fails. Otherwise the result is an element of the array at minimal distance from the value. |
| FrameCache.NearestIndexUnique | BusinessTampereTrafficMonitoring/object_detector/object_detector.py:28-34 | The first-minimum rule determines the index uniquely. |
| FrameCache.TieGoesToEarlier | asd.py:16-19 | When the later of two neighbours is a nearest element, everything before the earlier one is strictly farther, and the earlier one is equally near, the lookup answers the earlier one. |
| FrameCache.FindNearestExamples | tests/stream_reader_test.py:26-35 | 25.5 resolves to 25, and 10.5 resolves to 12, in the test array. |
| FrameCache.GetFrame | BusinessTampereTrafficMonitoring/object_detector/object_detector.py:45-46 | An empty cache fails. A non-empty consistent cache returns the frame stored under the timestamp nearest to the requested time. |
| FrameCache.GetStoredFrame | asd.py:21-22 | Asking a consistent cache for a stored timestamp returns that timestamp's frame. |
| FrameCache.StoreThenGet | tests/stream_reader_test.py:48-54 | Storing a fresh timestamp and then asking for it returns the stored frame. |
| StreamReader.NewReader | BusinessTampereTrafficMonitoring/stream_reader/stream_reader.py:25-28 | A new reader has an empty cache and latest-frame time zero. |
| StreamReader.Consume | BusinessTampereTrafficMonitoring/stream_reader/stream_reader.py:81-83 | A frame read less than 0.5 s after the latest cached one changes nothing. Otherwise it is stored under its time, which becomes the latest-frame time and the newest queued timestamp. It fails only as the cache's store does. The latest-frame time never goes back, and the only new timestamp or frame key is the step's time. A frame that passes the throttle leaves the cache exactly as the cache's store does. |
| StreamReader.ConsumeAll | BusinessTampereTrafficMonitoring/stream_reader/stream_reader.py:68-84 | Over any run of consumer steps, the latest-frame time never goes back. Every timestamp queued, and every frame key, at the end was cached before or is the time of one of the readings. Which readings are stored is stated by `ConsumeAllStoresAccepted` and `ConsumeAllWindow`. |
| StreamReader.Accepted | BusinessTampereTrafficMonitoring/stream_reader/stream_reader.py:81-82 | The readings the 0.5 s throttle lets through come from the input. The first is at least 0.5 s past the starting latest-frame time, and any two are at least 0.5 s apart. |
| StreamReader.ConsumeAllStoresAccepted | BusinessTampereTrafficMonitoring/stream_reader/stream_reader.py:68-84 | The consumer loop is the frame cache fed with exactly the readings the throttle lets through, in order. It fails exactly when that feed fails. Otherwise it ends with that feed's cache and with the time of the last reading let through as the latest-frame time. |
| StreamReader.ConsumeAllWindow | BusinessTampereTrafficMonitoring/stream_reader/stream_reader.py:56-60 | From a throttled reader, the cache ends up queuing exactly the last 200 of its earlier times followed by the times let through. Every reading let through that is still cached maps to its own frame. |
| StreamReader.ConsumeKeepsThrottled | BusinessTampereTrafficMonitoring/stream_reader/stream_reader.py:81-83 | Whatever the clock does, a consumer step never fails. It keeps the cache consistent, keeps every cached time at most the latest-frame time with the newest equal to it, and keeps consecutive cached times at least 0.5 s apart. |
| StreamReader.ConsumeAllThrottled | BusinessTampereTrafficMonitoring/stream_reader/stream_reader.py:68-84 | The same holds for any number of consumer steps, and the cache never exceeds 200 frames. |
| StreamReader.ConsumeAllCachedAfter | BusinessTampereTrafficMonitoring/stream_reader/stream_reader.py:81-83 | The latest-frame time never goes back, so every cached time stays at least 0.5 s past any earlier lower bound. |
| StreamReader.FromStart | BusinessTampereTrafficMonitoring/stream_reader/stream_reader.py:28 | From a fresh reader, consumption never fails, keeps the throttle invariant, and caches no time before 0.5. |
| Detections.FilterByClass | BusinessTampereTrafficMonitoring/object_detector/object_detector.py:49-52 | A detection is kept exactly when its class is 1, 2, 3, 5 or 7 and its score is positive. |
| Detections.KeepAllowed | BusinessTampereTrafficMonitoring/object_detector/object_detector.py:76 | Filtering keeps only accepted detections, keeps every accepted one, and keeps the length exactly when all are accepted. |
| Detections.KeepAllowedConcat | BusinessTampereTrafficMonitoring/object_detector/object_detector.py:76 | Filtering distributes over concatenation (order is preserved). |
| Detections.KeepAllowedIdempotent | BusinessTampereTrafficMonitoring/object_detector/object_detector.py:76 | Filtering twice is filtering once. |
| Detections.RejectedDetections | BusinessTampereTrafficMonitoring/object_detector/object_detector.py:112 | A detection of a class outside [1, 2, 3, 5, 7], or with a non-positive score, is dropped. |

## Left out

- HTTP (`httpx`), JSON decoding and the SQLAlchemy engine and table: responses are the abstract `Response` datatype, and the database is a sequence of events.
- `_parse_date` and `iso_to_unix` are date parsing, and timestamps are opaque in the model. Their one modelled effect is the TypeError a call through the instance raises (see Findings).
- Threads, the frame buffer queue, `cv2` capture, reconnection and the 5-second give-up: the consumer's `queue.Empty()` handler is unreachable behind a blocking `get()`. The clock is a parameter of each consumer step.
- The repetition and `time.sleep` of both polling loops: one round is modelled (`PollRound`, `ListenRound`), and another thread's `stop_polling` is a separate operation.
- The YOLO model, module-level capture, config loading and `cv2.waitKey` loops of the object detector and `asd.py`, and `asd.py`'s `detect`.
- `lower_center_from_bbox` and `detect_by_lane_and_time`: the first calls `tuple` with two arguments and the second is unfinished; only the class filter it applies is modelled.
- Lane counting (`ObjectDetector.process_detections`) and a `get_frame` method on the stream reader are called by the tests but are not part of this model.
- The lane configurator UI, the IoT-TICKET client, `server.py`, the demo scripts, `main.py` and `setup.py`.
- Python's floating point: coordinates are integers, and cache and consumer times are exact reals.
- ApiClient.PollRound and ApiClient.ListenRound: both are built on the corrected store and callback members. As written, a batch round that collects any event raises at the store, and a callback round ends at the first OK response. The as-written behaviour is modelled one response or batch at a time (`ApiClient.StoreAsWritten`, `ApiClient.ListenDeviceAsWritten`), not as whole rounds.
- ApiClient.ListenReportsChanges: the exact calls are characterised for responses that name each group once. A response that names a group twice updates it twice, and its calls follow from `ApiClient.ListenSplit` one reading at a time.
- Geometry.PointInside: the docstring's promise (true strictly inside, false strictly outside) is proved only for points lexicographically below every polygon point, and not for general outside or inside points.
- Geometry.Scan: its own contract says only where the result comes from. The update rule is stated by `ScanSnoc` and the one-pass property by `ScanOnePass`. That every point lies on or to the right of the edge to the result is not proved. The one-pass scan does not guarantee it for points scanned before the last pick.
- Geometry.Successor: its own contract says only that the next vertex is an input point. The one-pass property is stated by `SuccessorOnePass`. For the same reason as for `Geometry.Scan`, that the next vertex is a hull corner is not proved.
- Geometry.ConvexHull: that the returned vertices are exactly the hull's corners in order is not proved, only the shape listed above.
- FrameCache.GetFrame: on an inconsistent cache (possible only after a timestamp was stored twice), the KeyError path is modelled but not characterised.

## Findings

| source | as written | input that shows it | evidently intended | confidence | as-written member | corrected member |
|---|---|---|---|---|---|---|
| BusinessTampereTrafficMonitoring/traffic_lights/api_client.py:99-101 | `store` calls `self._parse_date(...)`, but `_parse_date` (line 175) is declared without `self` and is not a static method, so every call gets two arguments and raises a TypeError | any non-empty event batch, e.g. the two events of tests/traffic_lights_test.py:132 | every event of a non-empty batch is inserted, as the test expects two rows | not executed | ApiClient.StoreAsWritten | ApiClient.Store |
| BusinessTampereTrafficMonitoring/traffic_lights/api_client.py:151 | callback mode parses the response timestamp through `self._parse_date`, which raises the same TypeError for every successful fetch, before any signal group is looked at | any OK response, e.g. a known red group reported green ("1") | the timestamp is converted and the response is dispatched, calling back on every status change | not executed | ApiClient.ListenDeviceAsWritten | ApiClient.ListenDevice |
