/** Whole-session scenarios, from mounting the component onward. */
module Scenarios {
  import opened Wrappers
  import opened Geometry
  import opened Scanner

  /** `n` ticks over frames of size `f` in which the decoder finds nothing. */
  function EmptyTicks(n: nat, f: Frame): (es: seq<Event>)
    ensures |es| == n
    ensures forall i :: 0 <= i < n ==> es[i] == FrameTick(Ready(f), NoCode)
  {
    seq(n, i => FrameTick(Ready(f), NoCode))
  }

  /**
    An 800x600 feed in which the decoder finds nothing for 50 ticks and a code
    on tick 51: the session is counting down from 3 right after that tick, is
    still counting down after two interval firings, and the third firing
    captures the padded band of the 800x600 frame (x 80, y 574/3, width 640,
    height 652/3).
   */
  lemma DetectOnTick51()
    ensures var f := Frame(800, 600);
            var detect := EmptyTicks(50, f) + [FrameTick(Ready(f), Code)];
            && Searching(Run(Mount(), EmptyTicks(50, f)))
            && CountingDown(Run(Mount(), detect)) && Run(Mount(), detect).countdown == 3
            && CountingDown(Run(Mount(), detect + Fires(2)))
            && Captured(Run(Mount(), detect + Fires(3)))
            && Run(Mount(), detect + Fires(3)).capturedImage
               == Some(Image(Rect(80.0, 574.0 / 3.0, 640.0, 652.0 / 3.0)))
  {
    var f := Frame(800, 600);
    var s0 := Mount();
    SearchingWithoutCode(s0, EmptyTicks(50, f));
    var detect := EmptyTicks(50, f) + [FrameTick(Ready(f), Code)];
    RunAppend(s0, EmptyTicks(50, f), [FrameTick(Ready(f), Code)]);
    var s1 := Run(s0, detect);
    assert s1 == Apply(s0, FrameTick(Ready(f), Code));
    assert s1.timer == Some(ScanArea(f));
    RunAppend(s0, detect, Fires(2));
    RunAppend(s0, detect, Fires(3));
    CountdownCaptures(s1, 2);
    CountdownCaptures(s1, 3);
  }

  /**
    A canvas without a 2D context ends the scan loop: the run of `scan`
    returns before requesting another frame, so a code in a later frame is
    never seen and the session stays frozen.
   */
  lemma MissingContextEndsLoop(es: seq<Event>)
    ensures var t := Run(Mount(), [FrameTick(NoContext, NoCode)]);
            && Frozen(t)
            && Run(t, [FrameTick(Ready(Frame(800, 600)), Code)] + es) == t
  {
    var t := Run(Mount(), [FrameTick(NoContext, NoCode)]);
    assert t == Apply(Mount(), FrameTick(NoContext, NoCode));
    FrozenIsFinal(t, [FrameTick(Ready(Frame(800, 600)), Code)] + es);
  }

  /**
    When the camera is refused no frame ever becomes ready: the session keeps
    scanning with no detection and no image for as long as ticks arrive.
   */
  lemma CameraRefused(n: nat)
    ensures var t := Run(Mount(), seq(n, i => FrameTick(NotReady, NoCode)));
            t == Mount() && Searching(t) && t.capturedImage.None?
  {
    SearchingWithoutCode(Mount(), seq(n, i => FrameTick(NotReady, NoCode)));
  }
}
