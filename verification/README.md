# QR-Camera scanner hook, modelled in Dafny

QR-Camera is a browser app. It samples frames from the rear camera and looks for
a QR code in a centred band of each frame. Three seconds after a detection it
is meant to crop that band into a PNG the user can download or retake. All of its logic
is in the `useQRScanner` React hook. This project models two parts of that hook
and proves properties of them:

- **Scan-band geometry** (`geometry.dfy`, module `Geometry`). The band is the
  region of interest handed to the decoder. It is min(0.8·W, 800) wide, a third
  as high, and centred in the frame. The capture rectangle is the band with
  2 px of padding above and below. Coordinates are `real`, i.e. exact rationals.
- **The session state machine** (`countdown.dfy`, `scanner.dfy`, modules
  `Countdown` and `Scanner`). The hook's state is a `Session` record:
  `scanning`, `capturedImage`, `qrDetected`, `countdown`. It also holds the
  pending countdown interval with the band its closure captured, and whether
  a run of `scan` is scheduled (`framePending`). Each state update of
  the hook is a pure function:
  - `Tick` is the per-frame `scan` callback;
  - `Countdown.Step` is the `setCountdown` updater, and `Interval` is one firing of the interval;
  - `Capture` is `captureQRArea`;
  - `ScanningEffect` is the reset effect;
  - `Retry` is the retry button's `setScanning(true)`.
  Sessions fall into four phases: `Searching`, `CountingDown`, `Captured`, and
  `Stalled` (the countdown ended without a capture context). `Frozen` is a
  part of `Searching` in which no run of `scan` is scheduled any more. The
  lemmas show that every event sequence from mounting stays inside these
  phases and moves along the state machine. `Frozen` and `Stalled` are both
  dead ends.
  A frame tick (`Scanner.Apply`) runs `scan` only while a run is scheduled,
  and the tick's re-arm decision says whether another run is scheduled.
- **Scenarios** (`scenarios.dfy`): the 800×600 detect-on-tick-51 run, a
  canvas without a 2D context, and a camera that never delivers a frame.
- `wrappers.dfy` defines `Option`, which stands for the hook's nullable values.

The camera, the QR decoder and the canvas are inputs, not models:
- the tick is told whether the video and canvas are ready (`Readiness`);
- the tick is told what the decoder answered: no code, a code, or an exception (`Decoded`);
- the capture is told whether a 2D context could be created.

The captured PNG is represented by the rectangle it was cropped from.

The model follows the code as written, including where its behaviour is surprising:
- Retry does not clear `capturedImage`. The reset effect only resets
  `qrDetected` and `countdown`, so the old image stays in the state.
- The scan band is not always inside the frame. Vertically it fits only when
  the frame is at least as high as the band (`Geometry.ScanAreaInsideIff`).
  A 3000×240 frame puts the band above and below the frame
  (`Geometry.WideFrameEscapesVertically`).
- If the capture canvas has no 2D context, the countdown still clears its
  interval and sets the counter to 0, but nothing is captured. The session
  then stays scanning with the detection set. No tick or firing can change it,
  and the retry button is not shown while scanning (`Scanner.StalledIsFinal`).
- Three kinds of tick request no further animation frame:
  - the early return for a canvas without a 2D context (src/hooks/useQRScanner.ts:91);
  - the exception for a missing video element (:89);
  - the exception for an empty band (:103).
  The scan effect runs again only when `scanning` or `qrDetected` changes
  (:147), and neither changes while searching. So the loop ends for good: the
  session is `Frozen` and a later code is never seen (`Scanner.FrozenIsFinal`,
  `Scenarios.MissingContextEndsLoop`).
- The tick that detects a code still requests a frame, because it reads the
  `qrDetected` value its callback was created with. `Tick`'s `rearm` result
  states this.
- Reading the band's pixels (src/hooks/useQRScanner.ts:103) happens before the
  decoder's `try`. The band's size is truncated to whole pixels there. A frame
  at most 3 pixels wide gives a band with zero width or height, and the read
  throws. So that tick changes nothing and does not re-arm, even if a code
  could be decoded (`Geometry.EmptyBandIffNarrow`, `Scanner.Tick`).
- The readiness test reads `video.HAVE_ENOUGH_DATA` without optional chaining.
  A missing video element therefore throws outside the decoder's `try`. The
  model treats that as a tick that changes nothing and does not re-arm.

## Model

| member | source | states |
|---|---|---|
| `Geometry.ScanArea` | src/hooks/useQRScanner.ts:96-99 | the band's width is at most 800 and at most 0.8·W and equals one of them; height·3 = width; x + w + x = W and y + h + y = H (centred); 0 ≤ x and x + w ≤ W; the width is positive iff the frame width is |
| `Geometry.ScanAreaInsideIff` | src/hooks/useQRScanner.ts:97-99 | the band lies inside the frame iff the frame height is at least the band height, iff y ≥ 0 |
| `Geometry.ModerateAspectFitsInside` | src/hooks/useQRScanner.ts:96-99 | a frame with 4·W ≤ 15·H (such as the requested 1280×720) always holds its band |
| `Geometry.WideFrameEscapesVertically` | src/hooks/useQRScanner.ts:97-99 | for a 3000×240 frame the band is not inside the frame and its y is negative |
| `Geometry.EmptyBandIffNarrow` | src/hooks/useQRScanner.ts:96-103 | the band truncates to zero whole pixels of width or height exactly when the frame is at most 3 pixels wide |
| `Geometry.CaptureArea` | src/hooks/useQRScanner.ts:47-57 | the capture rectangle keeps x and width, starts 2 px above the band, ends 2 px below it, has the same vertical centre and contains the band |
| `Geometry.CaptureMayLeaveFrame` | src/hooks/useQRScanner.ts:47-55 | for a 300×80 frame the band fits exactly but the padded capture rectangle leaves the frame |
| `Countdown.Step` | src/hooks/useQRScanner.ts:117-124 | the updater captures iff prev ≤ 1, and then yields 0; otherwise it yields prev − 1 ≥ 1; the result is never negative and is below prev whenever prev is positive |
| `Countdown.CapturesExactlyOnce` | src/hooks/useQRScanner.ts:116-125 | from any start value the interval runs max(start, 1) callbacks and stops; exactly the last of them captures |
| `Countdown.FromStart` | src/hooks/useQRScanner.ts:117-124 | from 3 the updater yields 2, 1, then 0; the third callback captures, no earlier one does, and no callback follows it |
| `Scanner.Initial` | src/hooks/useQRScanner.ts:8-11 | the initial state is scanning, not detected, with no image, no pending interval and counter 3; the scan effect's first call of `scan` is scheduled |
| `Scanner.Tick` | src/hooks/useQRScanner.ts:83-135 | a tick that is not scanning or has already detected changes nothing and does not re-arm; a tick without a ready frame or without a decoded code changes nothing (a decoder exception included); a ready frame whose band is empty throws when its pixels are read, changing nothing and not re-arming; otherwise a decoded code only sets `qrDetected` and starts the interval over the current frame's band; it re-arms iff it passed the guard at :84, the video was present, the early return at :91 was not taken, and a ready frame's band was not empty |
| `Scanner.Capture` | src/hooks/useQRScanner.ts:50-60 | with a 2D context the image becomes the padded band and scanning stops; without one nothing changes; detection, counter and interval are never touched |
| `Scanner.Interval` | src/hooks/useQRScanner.ts:116-125 | with no interval pending nothing changes; above 1 the counter only decrements; at 1 or below the counter becomes 0, the interval is cleared and the captured band is the one the interval closed over |
| `Scanner.ScanningEffect` | src/hooks/useQRScanner.ts:63-68 | entering scanning clears the detection and sets the counter to 3; the image and interval are untouched; when not scanning nothing changes |
| `Scanner.Retry` | src/components/QRScanner.tsx:28-30 | retry while scanning changes nothing; otherwise scanning resumes with the detection cleared, counter 3, the old image kept, and a fresh run of `scan` scheduled |
| `Scanner.Mount` | src/hooks/useQRScanner.ts:63-68 | after mounting the session is searching, holds no image, and has a run of `scan` scheduled |
| `Scanner.Apply` | src/hooks/useQRScanner.ts:132-137 | a frame tick with no run of `scan` scheduled changes nothing; a tick that stops at the guard at :84 changes nothing; past the guard the session is the tick's result with `framePending` set to the tick's re-arm decision; interval firings and retry are `Interval` and `Retry` |
| `Scanner.ApplyFollowsMachine` | src/hooks/useQRScanner.ts:84-124 | each event moves Searching to Searching or CountingDown, CountingDown to CountingDown, Captured or Stalled, and Captured to Captured or Searching; each edge is taken exactly on its event (a decoded code on a ready frame more than 3 pixels wide while a run is scheduled; the firing at counter 1 with or without a context; retry); a scheduled searching session becomes Frozen exactly on a tick with no video, no 2D context or an empty band; Frozen and Stalled never change |
| `Scanner.RunPreservesValid` | src/hooks/useQRScanner.ts:63-147 | any sequence of events keeps a session inside the four phases |
| `Scanner.ReachableIsValid` | src/hooks/useQRScanner.ts:8-11 | every session reachable from mounting is in one of the four phases |
| `Scanner.FrozenIsFinal` | src/hooks/useQRScanner.ts:132-147 | a searching session with no run of `scan` scheduled never changes again, whatever happens |
| `Scanner.StalledIsFinal` | src/hooks/useQRScanner.ts:50-60 | a session whose countdown ended without a capture context never changes again |
| `Scanner.CaptureUsesDetectionBand` | src/hooks/useQRScanner.ts:110-120 | until a retry, a detected session keeps counting down over the same band, is captured from exactly the detecting tick's band, or is stalled; repeated decode successes start no new countdown |
| `Scanner.CapturedStaysWithoutRetry` | src/hooks/useQRScanner.ts:84-84 | without a retry a captured session, and its image, never change |
| `Scanner.FiresWithoutTimer` | src/hooks/useQRScanner.ts:119-119 | once the interval is cleared, further firings change nothing, so no second capture happens |
| `Scanner.CountdownCaptures` | src/hooks/useQRScanner.ts:116-125 | from a detection with counter c, the first c − 1 firings only count down over the same band, the c-th captures that band, and later firings do nothing |
| `Scanner.IntervalFollowsCallbacks` | src/hooks/useQRScanner.ts:116-125 | the session's interval firings follow the updater's callback schedule: the j-th firing finds the interval pending iff the schedule lists a j-th callback, and it leaves the session captured iff that callback captures |
| `Scanner.SearchingWithoutCode` | src/hooks/useQRScanner.ts:84-134 | ticks that never find a ready frame with a decoded code keep a searching session searching, and change nothing but whether a run is scheduled; if every tick re-arms (not ready, or a ready frame more than 3 pixels wide), nothing changes at all |
| `Scenarios.DetectOnTick51` | src/hooks/useQRScanner.ts:83-125 | with an 800×600 feed, 50 empty ticks and a code on tick 51, the session counts down from 3, is still counting down after two firings, and is captured after the third with the rectangle (80, 574/3, 640, 652/3) |
| `Scenarios.MissingContextEndsLoop` | src/hooks/useQRScanner.ts:89-91 | after a tick that finds no 2D context the session is frozen, and a later frame with a code changes nothing |
| `Scenarios.CameraRefused` | src/hooks/useQRScanner.ts:29-35 | when frames never become ready the session stays as mounted: searching and without an image |

## Left out

- Camera acquisition and track stopping (`startCamera`, the cleanup that stops tracks): browser I/O. A refused camera shows up only as ticks that never find a ready frame.
- The jsQR decoder: it is an opaque third-party library. Its answer is an input to `Tick`.
- Canvas pixel work (`drawImage`, `getImageData`, `toDataURL`, resizing the canvas to the video): foreign rendering APIs. The captured image is the rectangle it was cut from. The integer truncation `getImageData` applies to the band's coordinates is not modelled, and neither is the clipping of a capture rectangle that leaves the frame.
- React scheduling, `requestAnimationFrame` and `setInterval` timing: events are applied one at a time, in any order, each to the latest session. The model covers the updater and the guards. It does not cover the stale values a callback's closure holds. In particular, the frame re-armed by the detecting tick can run before React re-renders. It then still sees `qrDetected` as false, and a second decode could start a second interval at src/hooks/useQRScanner.ts:116. That run is not among the model's behaviours. The model states no timing claim such as "capture three seconds after detection".
- Effect cleanup cancelling the countdown: the scan effect depends on `qrDetected`, so its cleanup (src/hooks/useQRScanner.ts:139-146) runs when a detection flips that flag. That cleanup clears the interval the detection just started. In the real hook this likely cancels the countdown before it fires. The model keeps the interval alive, i.e. it models the updater and guards as written, not React's re-run of the effect.
- The extra frame requested by the detecting tick: `Tick` reports it as `rearm`, but what that frame does is left to React's cleanup, which is not modelled. A tick that stops at the guard at :84 leaves `framePending` as it was: no run of `scan` does anything in that state, and a retry schedules a fresh run.
- Notifications and logging (`toast` at src/hooks/useQRScanner.ts:34 and :112-114, `console.error` at :128): user-facing effects that change no state.
- Unmounting and the teardown of timers: framework lifecycle.
- The UI components (src/components/QRScanner.tsx, src/components/ScanOverlay.tsx): rendering and the download link. Their only effect on the state is retry, which is `Scanner.Retry`.
- public/service-worker.js and server.js: caching and static file serving, outside the scanner.
