# Start-light race detector: verified model

This project models the decision logic of the `start_light` ROS node. The node
watches a camera feed for a red/green start lamp and publishes, once per frame,
whether the race has started. Three parts are modelled:

- **Detection** (`hasLight`): a contour list holds a light when some contour
  passes the test `4·π·area/perimeter² > 0.7 && area > 200`. The search stops
  at the first contour that passes. `HasLight` keeps the source's flag and
  `break`, and it is proved equal to the existential predicate `AnyLight`.
  `AnyLight` is proved to ignore the order of the contours and to split over
  concatenation.
- **ColorBands**: the two inclusive `inRange` bands on 8-bit HSV pixels, in
  OpenCV's raw hue units exactly as written (red hue 0..40, green hue
  80..140, saturation and value 120..255 for both).
- **RaceStart** and **StartLightNode**: the debounce state machine over the
  globals `race_started` and `time_red_off`. `time_red_off == 0` is the
  "unset" sentinel. `RaceStart.Transition` is the update on values. `Run`
  folds it over a sequence of frames. `StartLightNode.StartLight` is a class
  with the two globals as fields. Its `Step` method is the source's
  if/else-if chain, and it is proved equal to `Transition`. `OnFrame` is the
  callback after contour extraction: it classifies both contour lists, steps,
  and returns the value that is published.

The model keeps these behaviours of the code:

- Red does not clear `time_red_off`. Only `race_started` is cleared.
- The start rule does not check that `time_red_off` is set. With the
  sentinel 0, a green frame read at a time `now <= 1` starts the race
  (`GreenNearEpochStarts`). For a later time, the same frame changes
  nothing (`GreenWithoutRedOffIsQuiescent`).
- Once started, the race drops back to not started when green is still seen
  more than 1 s after `time_red_off`: both globals are reset to `false` and 0
  (`LateGreenResets`), and later green frames change nothing
  (`GreenWithoutRedOffIsQuiescent`).
- The reset rule is reached only when green is present. A run of blank frames
  never expires the window; blank frames only record the red-off time.
- The thresholds are compiled-in constants, not configuration.
- The hue bounds are raw OpenCV units. They are not degrees.

## Model

| member | source | states |
|---|---|---|
| `Detection.HasLight` | catkin_ws/src/week_6_exercises/project_6/start_light.cpp:21-36 | the flag-and-break loop returns true exactly when some contour has circularity above 0.7 and area above 200 |
| `Detection.EmptyHasNoLight` | catkin_ws/src/week_6_exercises/project_6/start_light.cpp:23-35 | an empty contour list yields false |
| `Detection.AnyLightPermutation` | catkin_ws/src/week_6_exercises/project_6/start_light.cpp:24-32 | permuting the contours does not change the verdict |
| `Detection.AnyLightAppend` | catkin_ws/src/week_6_exercises/project_6/start_light.cpp:24-32 | a concatenation holds a light iff one of its parts does, so a true prefix stays true when contours are appended |
| `Detection.IsRound` | catkin_ws/src/week_6_exercises/project_6/start_light.cpp:26-29 | the circularity test `4·π·area/perimeter² > 0.7`: with a zero perimeter it passes exactly when the area is positive (+infinity passes, NaN fails); with a positive perimeter it is the quotient test as written |
| `Detection.IsLight` | catkin_ws/src/week_6_exercises/project_6/start_light.cpp:27-29 | a contour is a light only if its area exceeds 200; with a zero perimeter, exactly when its area exceeds 200 |
| `Detection.CircleIsLight` | catkin_ws/src/week_6_exercises/project_6/start_light.cpp:27-29 | a radius-10 circle (area 314.16, perimeter 62.83) passes the test |
| `Detection.ThinRectangleIsNoLight` | catkin_ws/src/week_6_exercises/project_6/start_light.cpp:27-29 | a contour of area 314.16 and perimeter at least 4 × 62.83 has circularity below 0.25 and fails the test |
| `ColorBands.InBand` | catkin_ws/src/week_6_exercises/project_6/start_light.cpp:44-45 | the per-pixel `inRange` test: both corners of a band lie in it (bounds are inclusive), and a band with a lower bound above its upper bound holds no pixel |
| `ColorBands.Threshold` | catkin_ws/src/week_6_exercises/project_6/start_light.cpp:44-45 | the mask has the frame's dimensions, and each entry is true iff every channel of the pixel lies within the inclusive bounds |
| `ColorBands.BandsDisjoint` | catkin_ws/src/week_6_exercises/project_6/start_light.cpp:44-45 | no pixel is set in both the red and the green mask |
| `ColorBands.DimPixelInNeitherBand` | catkin_ws/src/week_6_exercises/project_6/start_light.cpp:44-45 | a pixel with saturation or value below 120 is in neither band |
| `ColorBands.UniformRedFrame` | catkin_ws/src/week_6_exercises/project_6/start_light.cpp:44-45 | a frame uniformly inside the red band gives an all-true red mask and an all-false green mask |
| `RaceStart.Transition` | catkin_ws/src/week_6_exercises/project_6/start_light.cpp:66-77 | one update of the two globals: red leaves the race not started; the race starts only when red is absent, green present and `now - time_red_off <= 1`; `time_red_off` changes only from 0 or to 0, and a newly recorded value is the time of a frame with neither colour |
| `RaceStart.Run` | catkin_ws/src/week_6_exercises/project_6/start_light.cpp:38-81 | successive callback invocations fold the update over frames: no frames leave the state as it was, and a run whose last frame is red ends not started |
| `RaceStart.RedDominates` | catkin_ws/src/week_6_exercises/project_6/start_light.cpp:66-67 | with red present, `race_started` becomes false whatever green and the time are, and `time_red_off` is unchanged |
| `RaceStart.NeitherColour` | catkin_ws/src/week_6_exercises/project_6/start_light.cpp:68-71 | with neither colour, `race_started` is unchanged; `time_red_off` becomes `now` if it was 0 and is kept otherwise |
| `RaceStart.StartsExactlyOnTrigger` | catkin_ws/src/week_6_exercises/project_6/start_light.cpp:72-73 | the race goes from not started to started iff red is absent, green is present and `now - time_red_off <= 1`; such a frame sets only `race_started` |
| `RaceStart.ExpiredWindowResets` | catkin_ws/src/week_6_exercises/project_6/start_light.cpp:74-76 | green with a set `time_red_off` more than 1 s old resets both globals to false and 0 |
| `RaceStart.TimestampNeverOverwritten` | catkin_ws/src/week_6_exercises/project_6/start_light.cpp:69-76 | `time_red_off` changes only from 0 or to 0, never from one non-zero value to another |
| `RaceStart.GreenWithoutRedOffIsQuiescent` | catkin_ws/src/week_6_exercises/project_6/start_light.cpp:66-77 | green with `time_red_off == 0` and `now > 1` fires no branch and leaves both globals unchanged |
| `RaceStart.GreenNearEpochStarts` | catkin_ws/src/week_6_exercises/project_6/start_light.cpp:72-73 | green with `time_red_off == 0` and `now <= 1` starts the race: the sentinel is not checked |
| `RaceStart.StartedOnlyAfterTrigger` | catkin_ws/src/week_6_exercises/project_6/start_light.cpp:66-77 | after any run of frames, the race is started only if it already was and no frame was red, or some frame triggered the start and no later frame was red |
| `RaceStart.RedOffOrigin` | catkin_ws/src/week_6_exercises/project_6/start_light.cpp:68-77 | a non-zero `time_red_off` after a run is either the initial value kept throughout, or the time of a blank frame that found it 0, kept through every later frame |
| `RaceStart.RedBlankGreenStarts` | catkin_ws/src/week_6_exercises/project_6/start_light.cpp:66-73 | from the initial state: red, then blank at `t`, then blank at `t+0.5` leaves `time_red_off == t`; then green at `t+0.9` starts the race |
| `RaceStart.LateGreenResets` | catkin_ws/src/week_6_exercises/project_6/start_light.cpp:74-76 | green 1.5 s after a recorded red-off time resets both globals |
| `StartLightNode.StartLight.constructor` | catkin_ws/src/week_6_exercises/project_6/start_light.cpp:12-13 | the globals start as `false` and 0 |
| `StartLightNode.StartLight.Step` | catkin_ws/src/week_6_exercises/project_6/start_light.cpp:66-77 | the in-place update leaves the globals equal to `Transition` of their old values; red leaves the race not started; a start happens only on a trigger frame |
| `StartLightNode.StartLight.OnFrame` | catkin_ws/src/week_6_exercises/project_6/start_light.cpp:63-81 | classifies both contour lists, updates the globals as `Transition` does on the two verdicts, and publishes the updated `race_started` |

## Left out

- ROS node setup, the subscription, both publishers and the 10 Hz spin loop are left out. They are I/O and scheduling. The value published per frame is modelled as `OnFrame`'s result.
- The `cv_bridge` conversion and the republished debug image are left out. They are message plumbing.
- `cvtColor`, `GaussianBlur`, `morphologyEx`, `getStructuringElement` (the `kernel` helper) and `findContours` are left out. They are library internals. Their outputs are taken as given: a contour is the pair (area, perimeter).
- `contourArea` and `arcLength` are not computed. A contour carries their two non-negative results.
- Floating point is not modelled. Areas, perimeters and times are exact reals, and π is the decimal value of `M_PI`. For a zero perimeter, the circularity test follows the IEEE outcome: +infinity passes when the area is positive, and NaN fails when the area is zero.
- `ros::Time::now()` is read up to twice in one frame (lines 72 and 74). The model reads one `now` per frame.
- The value of `now` is not modelled. It is a parameter of each step, with no assumption that time increases.
- Detection.IsRound: its contract states only the zero-perimeter outcome. The equivalent division-free form of the test for a positive perimeter (`0.7·perimeter² < 4·π·area`) is not proved: the solver does not close real division by a squared variable.
