/**
  The countdown that runs between detection and capture.

  Once a code is detected the hook starts a one-second interval whose callback
  passes an updater to `setCountdown`. The updater decrements the counter and,
  when the counter has reached one or less, clears the interval, triggers the
  capture and sets the counter to zero.
 */
module Countdown {

  /** The value the counter starts from and is reset to. */
  const Start: int := 3

  /** What one updater call yields: the next counter value and whether it triggered a capture. */
  datatype Update = Update(next: int, capture: bool)

  /** The `setCountdown` updater. */
  function Step(prev: int): (u: Update)
    ensures u.capture <==> prev <= 1
    ensures u.capture ==> u.next == 0
    ensures !u.capture ==> u.next == prev - 1 && 1 <= u.next
    ensures 0 <= u.next
    ensures 0 < prev ==> u.next < prev
  {
    if prev <= 1 then Update(0, true) else Update(prev - 1, false)
  }

  /**
    The capture flags of the interval callbacks that run among the first `k`
    interval periods, starting from counter `start`. A callback that captures
    also clears the interval, so no callback follows it.
   */
  function Callbacks(start: int, k: nat): seq<bool>
    decreases k
  {
    if k == 0 then []
    else
      var u := Step(start);
      [u.capture] + (if u.capture then [] else Callbacks(u.next, k - 1))
  }

  /** The number of the callback (counting from one) that captures when starting from `start`. */
  function FiringCallback(start: int): (n: nat)
    ensures 1 <= n
    ensures start >= 1 ==> n == start
  {
    if start <= 1 then 1 else start
  }

  /**
    Starting from `start`, the interval runs for `FiringCallback(start)`
    periods and stops: exactly the last of those callbacks captures, and every
    earlier one only decrements.
   */
  lemma {:induction false} CapturesExactlyOnce(start: int, k: nat)
    ensures |Callbacks(start, k)| == if k < FiringCallback(start) then k else FiringCallback(start)
    ensures forall i :: 0 <= i < |Callbacks(start, k)| ==>
              (Callbacks(start, k)[i] <==> i == FiringCallback(start) - 1)
    decreases k
  {
    if k > 0 && start > 1 {
      CapturesExactlyOnce(start - 1, k - 1);
      assert FiringCallback(start - 1) == FiringCallback(start) - 1;
      var c := Callbacks(start, k);
      assert c == [false] + Callbacks(start - 1, k - 1);
      forall i | 0 <= i < |c|
        ensures c[i] <==> i == FiringCallback(start) - 1
      {
        if i > 0 {
          assert c[i] == Callbacks(start - 1, k - 1)[i - 1];
        }
      }
    }
  }

  /**
    From the reset value 3 the updater yields 2, then 1, then 0; the third
    callback captures and no earlier one does, whatever number of periods
    elapse.
   */
  lemma FromStart(k: nat)
    ensures Step(Start) == Update(2, false)
    ensures Step(2) == Update(1, false)
    ensures Step(1) == Update(0, true)
    ensures |Callbacks(Start, k)| <= 3
    ensures k >= 3 ==> Callbacks(Start, k) == [false, false, true]
    ensures forall i :: 0 <= i < |Callbacks(Start, k)| ==> (Callbacks(Start, k)[i] <==> i == 2)
  {
    CapturesExactlyOnce(Start, k);
    if k >= 3 {
      var c := Callbacks(Start, k);
      assert |c| == 3 && !c[0] && !c[1] && c[2];
    }
  }
}
