# Crowd-density zone aggregation and edge-triggered alerts

The core of the crowd-density monitor works frame by frame. A person
detector reports boxes for each frame. The frame is split into a
`rows` by `cols` grid, and each person's box centre is mapped to one grid cell.
Each cell's count is classified as Low, Medium, High or Critical against three
ordered thresholds. The zones `Z1` to `Z{rows*cols}` are emitted in row-major
order. A set of alerted zones makes alerts edge-triggered: a zone raises one
alert each time it enters Critical, not once per frame it spends there.

The same logic appears twice in the source: in the web service's
`process_frame` (backend/app.py) and in the stand-alone script's frame loop
(backend/yolo_detect.py), which fixes a 3 by 3 grid and thresholds 3, 6 and 10.
The model has one copy of the logic, used by both.

Modules:

- `Zones` (zones.dfy): detections, the grid, the cell of a detection, levels,
  zone identifiers, per-cell counts and the row-major zone list, all as values.
  Its lemmas cover cell bounds and ownership, boundaries, monotone
  classification, and the total equalling the sum of the zones.
- `Alerts` (alerts.dfy): the alert step as a function over the emitted zones,
  a reference definition of the alerts due, and their properties.
- `Aggregation` (aggregation.dfy): the loops of the source as methods. One fills
  a freshly zeroed `array2` of counts. One walks the cells, emitting zones and
  updating the alert set zone by zone. The set is a local value threaded
  through the loop; `Monitor.ProcessFrame` assigns the result to its field
  afterwards. A third composes them for one frame. Each is
  proved against the functions of `Zones` and `Alerts`.
- `App` (app.py model): the default configuration and a `Monitor` class. It
  holds the service's process-wide state: the configuration, the latest
  snapshot (`current_zone_data`) and the alert set (`alerted_zones`).
- `YoloDetect` (yolo_detect.py model): the script's constants, its frame loop,
  and worked examples.
- `Decimal` (decimal.dfy): how `str` renders a number inside `f"Z{n}"`. It
  includes a parser proving that the rendering is injective, so distinct zones
  have distinct identifiers.
- `Wrappers` (wrappers.dfy): `Option`.

Inputs the source gets from outside are parameters of the model. The
detections of a frame are a `seq<Detection>` with integer boxes. The frame size
is given. "No frame", whether the camera is inactive, closed or the read
failed, is `None`. Side effects of an alert (console message, beep, log line)
appear only as the emitted `Alert(zone, count)` values.

## Model

| member | source | states |
|---|---|---|
| `Zones.Grid.ZoneH` | backend/app.py:87 | The cell height `height // rows` is at least 1 and `rows` cells fit in the frame height. |
| `Zones.Grid.ZoneW` | backend/app.py:87 | The cell width `width // cols` is at least 1 and `cols` cells fit in the frame width. |
| `Zones.CellOf` | backend/app.py:98-101 | The clamped cell index of any on-screen detection satisfies `0 <= row < rows` and `0 <= col < cols`. |
| `Zones.CellOfOwns` | backend/app.py:98-101 | The row is `r` iff `r * zone_h <= cy` and either `cy < (r+1) * zone_h` or `r` is the last row. Columns work the same way. |
| `Zones.BoundaryCell` | backend/app.py:98-101 | A centre exactly on `k * zone_h` goes to row `k`, the row starting there, because of floor division. Columns work the same way. |
| `Zones.ClassifyRank` | backend/app.py:118-126 | With `low <= medium <= high`, the level's rank is the number of thresholds the count exceeds. |
| `Zones.ClassifyMonotone` | backend/app.py:118-126 | With ordered thresholds, raising a count never lowers its level. |
| `Zones.CriticalIff` | backend/app.py:119-126 | With any thresholds, a count is Critical exactly when it is above all three. |
| `Zones.ZoneIdInjective` | backend/app.py:115 | `Z{a}` and `Z{b}` are the same string exactly when `a == b`. |
| `Decimal.ParseRender` | backend/app.py:115 | Parsing the decimal rendering of `n` gives back `n`. |
| `Decimal.RenderInjective` | backend/app.py:115 | Different numbers render to different decimal strings. |
| `Zones.NonPersonIgnored` | backend/app.py:94-95 | A detection that is not class 0 changes neither the total nor any cell count. |
| `Zones.PersonCounted` | backend/app.py:95-102 | A person detection adds one to the total and one to its own cell, and changes no other cell. |
| `Zones.FrameTotal` | backend/app.py:90-102 | The number of person detections equals the sum of the counts of all emitted zones. |
| `Zones.FrameZoneAt` | backend/app.py:113-132 | Position `row*cols+col` of the zone list exists and holds `Z{row*cols+col+1}` with cell (row, col)'s count and that count's level. |
| `Zones.FrameZoneIds` | backend/app.py:113-115 | A frame's zones have pairwise distinct identifiers, and these are exactly `Z1` to `Z{rows*cols}`. |
| `Zones.EmptyFrame` | backend/app.py:88-120 | With no detections the total is 0, and when `low >= 0` every zone has count 0 and level Low. |
| `Alerts.AlertStepSpec` | backend/app.py:141-160 | With distinct zone ids, the new alert set is the prior set minus every checked zone plus every Critical zone. The alerts raised are exactly those of the reference filter `Entering`. |
| `Alerts.AlertedIffCritical` | backend/app.py:141-160 | After the step, a checked zone is in the alert set exactly when its level is Critical. |
| `Alerts.EnteringIff` | backend/app.py:141-143 | An alert `(id, count)` is raised exactly when a zone with that id and count is Critical and was not in the prior set. |
| `Alerts.NothingEntering` | backend/app.py:141 | When every Critical zone is already flagged, no alert is raised. |
| `Alerts.RepeatIsQuiet` | backend/app.py:141-160 | Checking the same zones twice in a row raises nothing the second time, and the set stays the same. |
| `Alerts.SustainedCriticalIsQuiet` | backend/app.py:141 | A zone Critical in one frame raises no alert in the next frame. |
| `Alerts.ReentryAlerts` | backend/app.py:141-160 | A zone not Critical in one frame and Critical in the next raises an alert with its new count. |
| `Alerts.SingleEntering` | backend/app.py:141-143 | If the only Critical zone is unflagged, exactly one alert is raised, for that zone. |
| `Alerts.EmptyFrameAlerts` | backend/app.py:159-160 | With no detections (and `low >= 0`), every grid zone is removed from the alert set, whatever its prior state, and nothing is raised. |
| `Aggregation.CountZones` | backend/app.py:87-102 | The loop gives a `rows` by `cols` array whose cell (r, c) holds the persons centred in that cell. The total is the number of person detections. |
| `Aggregation.EmitZones` | backend/app.py:113-160 | The nested loops emit `rows*cols` zones. Zone `k` is `Z{k+1}` with the count of cell `(k / cols, k % cols)` and its level. The alert set and alerts, updated zone by zone, equal the alert step over the emitted zones. |
| `Aggregation.ProcessDetections` | backend/app.py:84-160 | One frame yields the snapshot of its detections, whose total equals the sum of its zones. The new alert set is the prior set minus the grid zones plus the Critical ones. The alerts are exactly the entries into Critical. |
| `App.DefaultConfig` | backend/app.py:21-26 | The built-in configuration (3 by 3 grid, thresholds 3, 6, 10) is a valid grid with ordered thresholds. |
| `App.Monitor.constructor` | backend/app.py:33-34 | Start-up state: an empty snapshot with total 0 and an empty alert set; the invariant holds. |
| `App.Monitor.ProcessFrame` | backend/app.py:69-188 | With no frame it returns nothing and changes nothing. Otherwise the snapshot replaces `current_zone_data`, and the alert set and alerts follow the alert step. In both cases the invariant is kept: the alert set is exactly the Critical zones of the latest snapshot. |
| `YoloDetect.Detect` | backend/yolo_detect.py:26-106 | The script's loop processes frames in order from an empty alert set and stops at the first failed read. Its snapshots, alerts and final alert set are those of `Session`. |
| `YoloDetect.FixedLevels` | backend/yolo_detect.py:71-78 | 0 to 3 people is Low, 4 to 6 Medium, 7 to 10 High, and 11 or more Critical. |
| `YoloDetect.FixedGridCell` | backend/yolo_detect.py:38-55 | On the 3 by 3 grid a person adds one to cell `(min(cy // zone_h, 2), min(cx // zone_w, 2))` and to no other. |
| `YoloDetect.NineZones` | backend/yolo_detect.py:60-84 | The script emits nine zones, with zone `k` being `Z{k+1}`, and the total is the sum of their counts. |
| `YoloDetect.OneCellCounts` | backend/yolo_detect.py:45-55 | When every detection is a person in one cell, that cell counts all of them and every other cell counts zero. |
| `YoloDetect.CrowdZones` | backend/yolo_detect.py:43-84 | `n` people in the top-left cell give total `n`, `Z1` with `n` people and its level, and the other eight zones empty and Low. |
| `YoloDetect.CrowdAlerts` | backend/yolo_detect.py:93-106 | For such a frame, `Z1` ends up flagged exactly when `n >= 11`. One alert `(Z1, n)` is raised exactly when it was not flagged before. |
| `YoloDetect.ElevenInOneCell` | backend/yolo_detect.py:48-95 | 11 people in cell (0,0) give total 11, `Z1` with 11 and Critical, and the other zones with 0 and Low. The frame raises exactly one alert, for `Z1`. |
| `YoloDetect.SameCriticalFrameTwice` | backend/yolo_detect.py:93-106 | The same Critical frame twice raises one alert, not two. |
| `YoloDetect.CriticalHighCritical` | backend/yolo_detect.py:93-106 | Critical, then High, then Critical raises two alerts, one per entry into Critical. |
| `YoloDetect.SessionAlerted` | backend/yolo_detect.py:26-106 | Throughout a run the alert set holds only grid zones `Z1` to `Z9`. After any processed frame it is exactly the set of zones Critical in the latest snapshot. |
| `YoloDetect.EmptyFrameClears` | backend/yolo_detect.py:43-106 | Any frame with no detections leaves every zone empty and Low. It empties an alert set of grid zones, which is every set a run reaches, and raises no alert. |

## Left out

- Object detection (`model(frame)`): an external black box. The detections are an input.
- The float-to-int conversion of box corners: boxes are given as integers.
- The detector's nesting of boxes inside per-image result objects: a frame's boxes are one flat sequence in the same order.
- Drawing boxes, zone rectangles and labels, showing windows, JPEG encoding and MJPEG streaming: image I/O through the vision library. `ProcessFrame` returns the snapshot, not the annotated image.
- Opening, reading, releasing and resizing the camera or video file, and the `q` key: I/O. A failed read or an inactive camera is a `None` frame. The script's run ends at the end of the given frames.
- The alert's console message, beep, timestamp and log-file line: output I/O. Each alert is represented by the emitted `Alert(zone, count)` value.
- The failure of that output: the log-file `open`/`write` (backend/app.py:155-157, backend/yolo_detect.py:101-103) and the script's `winsound.Beep` (backend/yolo_detect.py:98) are not guarded; only the service's beep is (backend/app.py:148-152). If one of them raises, it does so after the zone has joined the alert set (backend/app.py:143, backend/yolo_detect.py:95). The remaining zones of the frame are then never checked, and the service does not replace `current_zone_data` (backend/app.py:178). After such a failure the service's alert set no longer equals the Critical zones of its latest snapshot, which is the invariant `App.Monitor.Valid` states, and the script's run ends. The model has no failing output, so this error path is not modelled.
- Writing `zone_data.json` after each frame: file I/O. The returned snapshots, and `current_zone_data` in the service, are what would be written.
- Reading `config.json`: file I/O. The configuration is a parameter, and the built-in defaults are `DefaultConfig`. Camera and model settings are not modelled. The alert settings `enable_sound`, `beep_frequency`, `beep_duration` and `log_file` are read by `process_frame` (backend/app.py:146-156), but they feed only the beep and the log line, which are left out above.
- The web routes, start/stop, status, alert-log reading and `time.sleep` pacing (backend/app.py:190-269), the server launcher backend/run_flask.py and the dashboard dashboard/streamlit_app.py: web plumbing and UI with no logic of their own.
- The service's concurrency (`threaded=True`, shared globals): the state is one sequential `Monitor` object.
- Division by zero when a frame is smaller than the grid (`zone_h` or `zone_w` of 0) and a person is detected: the model requires `height >= rows` and `width >= cols`. It also requires `rows, cols >= 1`; with zero the source divides by zero at once.
- Negative box corners: the model requires corners `>= 0`, as the detector reports boxes inside the frame. With negative centres Python floor division gives a negative index. Numpy negative indexing then counts a cell from the other end of the grid, or raises `IndexError` when the centre lies below `-rows * zone_h` (or `-cols * zone_w`).
- Integer widths: Python integers are unbounded. The cell counts are numpy `dtype=int`, which is 32-bit on Windows with NumPy 1.x (the program imports `winsound`, so it runs on Windows) and 64-bit elsewhere. Neither bound can be reached by the number of detections in one frame. The model uses unbounded integers.
- The claim that an empty frame empties the alert set "regardless of prior state" holds for grid zones: `Alerts.EmptyFrameAlerts` removes every `Z1..Z{rows*cols}`. In the service and in the script the set only ever holds grid zones, so it becomes empty (the `Monitor` invariant for the service, `YoloDetect.SessionAlerted` and `YoloDetect.EmptyFrameClears` for the script).
