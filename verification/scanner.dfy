/**
  The scan/detect/countdown/capture state machine of the `useQRScanner` hook.

  React's scheduling is abstracted away: each state update the hook performs
  is one pure function from the session before to the session after. The
  camera, the QR decoder and the canvas are inputs to those functions: the
  tick is told whether the video and canvas are ready and what the decoder
  answered, and the capture is told whether a 2D context could be created.
 */
module Scanner {
  import opened Wrappers
  import opened Geometry
  import Countdown

  /** The captured PNG, represented by the frame rectangle it was cropped from. */
  datatype Image = Image(area: Rect)

  /**
    The hook's state. `timer` is the pending countdown interval, if any,
    together with the scan band its callback will crop: the callback closes
    over the band computed on the tick that detected the code.
    `framePending` says whether a run of `scan` is scheduled: the scan
    effect's own call, or an animation frame a previous run requested.
   */
  datatype Session = Session(
    scanning: bool,
    capturedImage: Option<Image>,
    qrDetected: bool,
    countdown: int,
    timer: Option<Rect>,
    framePending: bool)

  /** The initial `useState` values; the scan effect's first call of `scan` is due. */
  function Initial(): (s: Session)
    ensures s.scanning && !s.qrDetected && s.capturedImage.None? && s.timer.None?
    ensures s.countdown == Countdown.Start && s.framePending
  {
    Session(true, None, false, Countdown.Start, None, true)
  }

  /**
    What a tick finds when it looks at the video and canvas elements.
    `NoVideo`: the video element is absent, so reading `HAVE_ENOUGH_DATA`
    from it throws outside the decoder's `try`.
    `NotReady`: the video has not buffered enough data, or there is no canvas.
    `NoContext`: the canvas has no 2D context.
    `Ready`: a frame of the given size can be drawn. Its band is read
    before the decoder's `try`, so a frame whose band is empty
    (`EmptyBand`) throws there.
   */
  datatype Readiness = NoVideo | NotReady | NoContext | Ready(frame: Frame)

  /** The decoder's answer for the scan band: no code, a code, or an exception. */
  datatype Decoded = NoCode | Code | DecoderError

  /** The session after a tick, and whether the tick requested another animation frame. */
  datatype TickResult = TickResult(session: Session, rearm: bool)

  /**
    One run of the per-frame `scan` callback. It does nothing unless the
    session is scanning and no code has been detected yet. On a successful
    decode it marks the code as detected and starts the countdown interval
    over the band of the current frame. The re-arm decision reads the
    `qrDetected` value the callback was created with, so the detecting tick
    still asks for one more frame; the early returns, and the exceptions
    thrown outside the decoder's `try`, do not ask for one.
   */
  function Tick(s: Session, ready: Readiness, decoded: Decoded): (r: TickResult)
    ensures !s.scanning || s.qrDetected ==> r == TickResult(s, false)
    ensures !ready.Ready? || decoded != Code ==> r.session == s
    ensures ready.Ready? && EmptyBand(ScanArea(ready.frame)) ==> r == TickResult(s, false)
    ensures r.session != s <==>
              && s.scanning && !s.qrDetected && decoded == Code
              && ready.Ready? && !EmptyBand(ScanArea(ready.frame))
    ensures r.session != s ==>
              r.session == s.(qrDetected := true, timer := Some(ScanArea(ready.frame)))
    ensures r.rearm <==>
              && s.scanning && !s.qrDetected
              && (ready.NotReady? || (ready.Ready? && !EmptyBand(ScanArea(ready.frame))))
  {
    if !s.scanning || s.qrDetected then TickResult(s, false)
    else
      match ready
      case NoVideo => TickResult(s, false)
      case NoContext => TickResult(s, false)
      case NotReady => TickResult(s, !s.qrDetected)
      case Ready(f) =>
        if EmptyBand(ScanArea(f)) then TickResult(s, false)
        else
          var next :=
            if decoded == Code && !s.qrDetected
            then s.(qrDetected := true, timer := Some(ScanArea(f)))
            else s;
          TickResult(next, !s.qrDetected)
  }

  /**
    `captureQRArea`: when a 2D context for the capture canvas exists, the
    padded band becomes the captured image and scanning stops; otherwise
    nothing happens.
   */
  function Capture(s: Session, roi: Rect, hasContext: bool): (t: Session)
    ensures !hasContext ==> t == s
    ensures hasContext ==> t.capturedImage == Some(Image(CaptureArea(roi))) && !t.scanning
    ensures t.qrDetected == s.qrDetected && t.countdown == s.countdown && t.timer == s.timer
    ensures t.framePending == s.framePending
  {
    if hasContext then s.(capturedImage := Some(Image(CaptureArea(roi))), scanning := false)
    else s
  }

  /**
    One firing of the countdown interval. With no interval pending nothing
    happens. Otherwise the counter is stepped; on the capturing step the
    interval is cleared, the counter becomes zero and the band the interval
    closed over is captured.
   */
  function Interval(s: Session, hasContext: bool): (t: Session)
    ensures s.timer.None? ==> t == s
    ensures s.timer.Some? && s.countdown > 1 ==> t == s.(countdown := s.countdown - 1)
    ensures s.timer.Some? && s.countdown <= 1 ==>
              && t.countdown == 0 && t.qrDetected == s.qrDetected
              && (hasContext ==> t.capturedImage == Some(Image(CaptureArea(s.timer.value))) && !t.scanning)
              && (!hasContext ==> t.capturedImage == s.capturedImage && t.scanning == s.scanning)
    ensures t.timer.None? <==> s.timer.None? || s.countdown <= 1
    ensures t.timer.Some? ==> t.timer == s.timer
    ensures t.framePending == s.framePending
  {
    match s.timer
    case None => s
    case Some(roi) =>
      var u := Countdown.Step(s.countdown);
      if u.capture then Capture(s.(countdown := u.next, timer := None), roi, hasContext)
      else s.(countdown := u.next)
  }

  /**
    The effect that runs whenever `scanning` changes: on entering scanning it
    clears the detection and resets the counter. It leaves a previously
    captured image in place.
   */
  function ScanningEffect(s: Session): (t: Session)
    ensures !s.scanning ==> t == s
    ensures s.scanning ==> !t.qrDetected && t.countdown == Countdown.Start
    ensures t.scanning == s.scanning && t.capturedImage == s.capturedImage && t.timer == s.timer
    ensures t.framePending == s.framePending
  {
    if s.scanning then s.(qrDetected := false, countdown := Countdown.Start) else s
  }

  /**
    The retry button, `setScanning(true)`. Setting the value `scanning`
    already has re-renders nothing, so the effects run only when the session
    was not scanning: the reset effect clears the detection, and the scan
    effect, which depends on `scanning` and `qrDetected`, runs again and
    calls `scan` afresh.
   */
  function Retry(s: Session): (t: Session)
    ensures s.scanning ==> t == s
    ensures !s.scanning ==>
              && t.scanning && !t.qrDetected && t.countdown == Countdown.Start
              && t.capturedImage == s.capturedImage && t.timer == s.timer
              && t.framePending
  {
    if s.scanning then s else ScanningEffect(s.(scanning := true, framePending := true))
  }

  /** The session once the component has mounted and the reset effect has run. */
  function Mount(): (s: Session)
    ensures Searching(s) && s.capturedImage.None? && s.framePending
  {
    ScanningEffect(Initial())
  }

  /** The inputs that drive the session. */
  datatype Event =
    | FrameTick(ready: Readiness, decoded: Decoded)
    | IntervalFired(hasContext: bool)
    | RetryPressed

  /**
    One event. A frame tick runs `scan` only when a run is scheduled. Past
    the guard, the tick's re-arm decision becomes the new `framePending`. A
    run that stops at the guard changes nothing: while the session is not
    searching no run of `scan` does anything, and the retry that makes it
    searching again schedules a run itself.
   */
  function Apply(s: Session, e: Event): (t: Session)
    ensures e.FrameTick? && !s.framePending ==> t == s
    ensures e.FrameTick? && (!s.scanning || s.qrDetected) ==> t == s
    ensures e.FrameTick? && s.framePending && s.scanning && !s.qrDetected ==>
              && t.framePending == Tick(s, e.ready, e.decoded).rearm
              && t.(framePending := s.framePending) == Tick(s, e.ready, e.decoded).session
    ensures e.IntervalFired? ==> t == Interval(s, e.hasContext)
    ensures e.RetryPressed? ==> t == Retry(s)
  {
    match e
    case FrameTick(ready, decoded) =>
      if !s.framePending then s
      else
        var r := Tick(s, ready, decoded);
        if s.scanning && !s.qrDetected then r.session.(framePending := r.rearm) else r.session
    case IntervalFired(hasContext) => Interval(s, hasContext)
    case RetryPressed => Retry(s)
  }

  /** The session after the events `es`, in order. */
  function Run(s: Session, es: seq<Event>): Session
    decreases |es|
  {
    if |es| == 0 then s else Run(Apply(s, es[0]), es[1..])
  }

  // The phases of a session. Together they are the states the hook can reach.

  /** Scanning and waiting for a code. */
  predicate Searching(s: Session) {
    s.scanning && !s.qrDetected && s.countdown == Countdown.Start && s.timer.None?
  }

  /**
    Searching, but no run of `scan` is scheduled: a run ended without
    requesting a frame. Nothing re-runs the scan effect and the retry button
    is not shown while scanning, so the session is stuck.
   */
  predicate Frozen(s: Session) {
    Searching(s) && !s.framePending
  }

  /** A code was detected and the countdown interval is pending. */
  predicate CountingDown(s: Session) {
    s.scanning && s.qrDetected && 1 <= s.countdown <= Countdown.Start && s.timer.Some?
  }

  /** The image was captured and scanning has stopped. */
  predicate Captured(s: Session) {
    !s.scanning && s.qrDetected && s.countdown == 0 && s.timer.None? && s.capturedImage.Some?
  }

  /**
    The countdown ended but no capture canvas context was available: the
    interval is gone, scanning is still on and the scan loop stays idle.
   */
  predicate Stalled(s: Session) {
    s.scanning && s.qrDetected && s.countdown == 0 && s.timer.None?
  }

  predicate Valid(s: Session) {
    Searching(s) || CountingDown(s) || Captured(s) || Stalled(s)
  }

  /**
    Every event moves a session along the state machine
    Searching -> CountingDown -> Captured -> Searching, with Frozen as a
    dead end inside Searching and Stalled as a dead end after CountingDown,
    and each edge is taken exactly on its event.
   */
  lemma ApplyFollowsMachine(s: Session, e: Event)
    requires Valid(s)
    ensures Searching(s) ==> Searching(Apply(s, e)) || CountingDown(Apply(s, e))
    ensures Searching(s) ==>
              (CountingDown(Apply(s, e)) <==>
                 && s.framePending && e.FrameTick? && e.ready.Ready? && e.decoded == Code
                 && e.ready.frame.width > 3)
    ensures Searching(s) && s.framePending ==>
              (Frozen(Apply(s, e)) <==>
                 && e.FrameTick?
                 && (e.ready.NoVideo? || e.ready.NoContext? || (e.ready.Ready? && e.ready.frame.width <= 3)))
    ensures Frozen(s) ==> Apply(s, e) == s
    ensures CountingDown(s) ==>
              CountingDown(Apply(s, e)) || Captured(Apply(s, e)) || Stalled(Apply(s, e))
    ensures CountingDown(s) ==>
              (Captured(Apply(s, e)) <==> e == IntervalFired(true) && s.countdown == 1)
    ensures CountingDown(s) ==>
              (Stalled(Apply(s, e)) <==> e == IntervalFired(false) && s.countdown == 1)
    ensures Captured(s) ==> Captured(Apply(s, e)) || Searching(Apply(s, e))
    ensures Captured(s) ==> (Searching(Apply(s, e)) <==> e == RetryPressed)
    ensures Stalled(s) ==> Apply(s, e) == s
  {
  }

  lemma {:induction false} RunPreservesValid(s: Session, es: seq<Event>)
    requires Valid(s)
    ensures Valid(Run(s, es))
    decreases |es|
  {
    if |es| > 0 {
      ApplyFollowsMachine(s, es[0]);
      RunPreservesValid(Apply(s, es[0]), es[1..]);
    }
  }

  /** Every session the hook reaches from mounting is in one of the four phases. */
  lemma ReachableIsValid(es: seq<Event>)
    ensures Valid(Run(Mount(), es))
  {
    RunPreservesValid(Mount(), es);
  }

  /** A frozen session never changes again, whatever happens. */
  lemma {:induction false} FrozenIsFinal(s: Session, es: seq<Event>)
    requires Frozen(s)
    ensures Run(s, es) == s
    decreases |es|
  {
    if |es| > 0 {
      FrozenIsFinal(Apply(s, es[0]), es[1..]);
    }
  }

  /** A stalled session never changes again, whatever happens. */
  lemma {:induction false} StalledIsFinal(s: Session, es: seq<Event>)
    requires Stalled(s)
    ensures Run(s, es) == s
    decreases |es|
  {
    if |es| > 0 {
      StalledIsFinal(Apply(s, es[0]), es[1..]);
    }
  }

  /**
    Until the user retries, a detected session ends up counting down over the
    same band, captured from exactly the band of the detecting tick, or
    stalled: later frames and later decoder successes change neither the band
    nor the countdown.
   */
  lemma {:induction false} CaptureUsesDetectionBand(s: Session, es: seq<Event>)
    requires CountingDown(s)
    requires forall i :: 0 <= i < |es| ==> !es[i].RetryPressed?
    ensures var t := Run(s, es);
            || (CountingDown(t) && t.timer == s.timer)
            || (Captured(t) && t.capturedImage == Some(Image(CaptureArea(s.timer.value))))
            || Stalled(t)
    decreases |es|
  {
    if |es| > 0 {
      var s1 := Apply(s, es[0]);
      ApplyFollowsMachine(s, es[0]);
      if CountingDown(s1) {
        CaptureUsesDetectionBand(s1, es[1..]);
      } else if Stalled(s1) {
        StalledIsFinal(s1, es[1..]);
      } else {
        CapturedStaysWithoutRetry(s1, es[1..]);
      }
    }
  }

  /** Without a retry, a captured session keeps its image and stays captured. */
  lemma {:induction false} CapturedStaysWithoutRetry(s: Session, es: seq<Event>)
    requires Captured(s)
    requires forall i :: 0 <= i < |es| ==> !es[i].RetryPressed?
    ensures Run(s, es) == s
    decreases |es|
  {
    if |es| > 0 {
      CapturedStaysWithoutRetry(Apply(s, es[0]), es[1..]);
    }
  }

  /** `k` firings of the countdown interval, each with a capture context available. */
  function Fires(k: nat): (es: seq<Event>)
    ensures |es| == k
    ensures forall i :: 0 <= i < k ==> es[i] == IntervalFired(true)
  {
    seq(k, i => IntervalFired(true))
  }

  /** Once no interval is pending, further firings change nothing. */
  lemma {:induction false} FiresWithoutTimer(s: Session, k: nat)
    requires s.timer.None?
    ensures Run(s, Fires(k)) == s
    decreases k
  {
    if k > 0 {
      assert Fires(k)[1..] == Fires(k - 1);
      FiresWithoutTimer(s, k - 1);
    }
  }

  /**
    From a detection with counter `c`, the first `c - 1` firings only count
    down over the same band and the `c`-th captures that band; firings after
    it do nothing.
   */
  lemma {:induction false} CountdownCaptures(s: Session, k: nat)
    requires CountingDown(s)
    ensures k < s.countdown ==>
              var t := Run(s, Fires(k));
              CountingDown(t) && t.countdown == s.countdown - k && t.timer == s.timer
    ensures k >= s.countdown ==>
              var t := Run(s, Fires(k));
              Captured(t) && t.capturedImage == Some(Image(CaptureArea(s.timer.value)))
    decreases k
  {
    if k > 0 {
      var s1 := Apply(s, IntervalFired(true));
      assert Fires(k)[0] == IntervalFired(true);
      assert Fires(k)[1..] == Fires(k - 1);
      assert Run(s, Fires(k)) == Run(s1, Fires(k - 1));
      if s.countdown > 1 {
        CountdownCaptures(s1, k - 1);
      } else {
        FiresWithoutTimer(s1, k - 1);
      }
    }
  }

  /**
    The session's interval firings follow the updater's callback schedule:
    from a detection with counter `c`, the `j`-th firing (from zero) finds
    the interval still pending exactly when `Countdown.Callbacks` lists a
    callback for it, and that firing leaves the session captured exactly
    when the listed callback captures.
   */
  lemma IntervalFollowsCallbacks(s: Session, k: nat)
    requires CountingDown(s)
    ensures forall j :: 0 <= j < k ==>
              (j < |Countdown.Callbacks(s.countdown, k)| <==> Run(s, Fires(j)).timer.Some?)
    ensures forall j :: 0 <= j < |Countdown.Callbacks(s.countdown, k)| ==>
              (Countdown.Callbacks(s.countdown, k)[j] <==> Captured(Run(s, Fires(j + 1))))
  {
    Countdown.CapturesExactlyOnce(s.countdown, k);
    forall j | 0 <= j <= k
      ensures j < s.countdown ==> CountingDown(Run(s, Fires(j)))
      ensures j >= s.countdown ==> Captured(Run(s, Fires(j)))
    {
      CountdownCaptures(s, j);
    }
    forall j | 0 <= j < |Countdown.Callbacks(s.countdown, k)|
      ensures Countdown.Callbacks(s.countdown, k)[j] <==> Captured(Run(s, Fires(j + 1)))
    {
      CountdownCaptures(s, j + 1);
    }
  }

  lemma {:induction false} RunAppend(s: Session, a: seq<Event>, b: seq<Event>)
    ensures Run(s, a + b) == Run(Run(s, a), b)
    decreases |a|
  {
    if |a| > 0 {
      assert (a + b)[0] == a[0];
      assert (a + b)[1..] == a[1..] + b;
      RunAppend(Apply(s, a[0]), a[1..], b);
    } else {
      assert a + b == b;
    }
  }

  /**
    While no tick both finds a ready frame and decodes a code, a searching
    session keeps searching and keeps its image: frames that are not ready,
    missing elements, empty bands, empty decodes and decoder exceptions
    change at most whether a run of `scan` is still scheduled. That changes
    only on a tick that does not re-arm, so ticks that all re-arm leave the
    session exactly as it was.
   */
  lemma {:induction false} SearchingWithoutCode(s: Session, es: seq<Event>)
    requires Searching(s)
    requires forall i :: 0 <= i < |es| ==>
               es[i].FrameTick? && !(es[i].ready.Ready? && es[i].decoded == Code)
    ensures Searching(Run(s, es)) && Run(s, es).(framePending := s.framePending) == s
    ensures (forall i :: 0 <= i < |es| ==>
               es[i].ready.NotReady? || (es[i].ready.Ready? && es[i].ready.frame.width > 3))
            ==> Run(s, es) == s
    decreases |es|
  {
    if |es| > 0 {
      var s1 := Apply(s, es[0]);
      if es[0].ready.Ready? {
        EmptyBandIffNarrow(es[0].ready.frame);
      }
      assert Searching(s1) && s1.(framePending := s.framePending) == s;
      SearchingWithoutCode(s1, es[1..]);
      if !s1.framePending && s.framePending {
        FrozenIsFinal(s1, es[1..]);
      }
    }
  }
}
