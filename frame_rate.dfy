/**
 * The frame-rate gate of `animate` over a run of animation frames: one
 * tick, then a sequence of timestamps fed to it in order.
 */
module FrameRate {
  import opened Wrappers
  import opened ViewerState

  /** A rejected tick leaves the whole state as it was: nothing rendered, no frame added. */
  lemma RejectedTick(s: State, currentTime: int, frameInterval: int)
    requires frameInterval > 0
    requires currentTime - s.previousTime < frameInterval
    ensures Tick(s, currentTime, frameInterval) == s
  {
  }

  /**
   * An accepted tick moves the reference time to the current time less the
   * remainder, so the current time trails it by less than one interval;
   * renders once, behind a transparent background while recording; keeps
   * `scene.background`; and adds one transparent frame of delay 100 exactly
   * when recording.
   */
  lemma AcceptedTick(s: State, currentTime: int, frameInterval: int)
    requires frameInterval > 0
    requires currentTime - s.previousTime >= frameInterval
    ensures var r := Tick(s, currentTime, frameInterval);
      r.previousTime == currentTime - (currentTime - s.previousTime) % frameInterval &&
      0 <= currentTime - r.previousTime < frameInterval &&
      r.renderCount == s.renderCount + 1 &&
      r.canvas == (if s.isRecording then Null else s.background) &&
      r.background == s.background &&
      r.gif == (if s.isRecording then s.gif + [Frame(FrameDelay, Null)] else s.gif) &&
      r == s.(previousTime := r.previousTime, renderCount := r.renderCount, canvas := r.canvas, gif := r.gif)
  {
  }

  /** The animation frames of `times`, in order, with no other event between them. */
  function TickRun(s: State, times: seq<int>, frameInterval: int): State
    requires frameInterval > 0
    decreases |times|
  {
    if times == [] then s else TickRun(Tick(s, times[0], frameInterval), times[1..], frameInterval)
  }

  /** How many of the frames of `times` pass the gate. */
  function Accepted(s: State, times: seq<int>, frameInterval: int): nat
    requires frameInterval > 0
    decreases |times|
  {
    if times == [] then 0
    else
      (if Gate(s.previousTime, times[0], frameInterval).Some? then 1 else 0) +
      Accepted(Tick(s, times[0], frameInterval), times[1..], frameInterval)
  }

  ghost predicate NonDecreasing(times: seq<int>) {
    forall i, j :: 0 <= i < j < |times| ==> times[i] <= times[j]
  }

  function Last(times: seq<int>): int
    requires |times| > 0
  {
    times[|times| - 1]
  }

  function Repeat(f: Frame, n: nat): (r: seq<Frame>)
    ensures |r| == n && forall k :: 0 <= k < n ==> r[k] == f
  {
    seq(n, _ => f)
  }

  /** Whether a run of frames is accepted depends on the reference time alone. */
  lemma {:induction false} AcceptedByReference(s: State, s': State, times: seq<int>, frameInterval: int)
    requires frameInterval > 0
    requires s.previousTime == s'.previousTime
    ensures Accepted(s, times, frameInterval) == Accepted(s', times, frameInterval)
    decreases |times|
  {
    if times != [] {
      AcceptedByReference(Tick(s, times[0], frameInterval), Tick(s', times[0], frameInterval),
                          times[1..], frameInterval);
    }
  }

  /**
   * A run of frames renders once per accepted frame and changes nothing but
   * the reference time, the canvas, the render count and the frames of the
   * current session; while recording it adds one transparent frame of delay
   * 100 per accepted frame, and otherwise leaves the session untouched.
   */
  lemma {:induction false} TickRunEffect(s: State, times: seq<int>, frameInterval: int)
    requires frameInterval > 0
    ensures var r := TickRun(s, times, frameInterval);
      r.renderCount == s.renderCount + Accepted(s, times, frameInterval) &&
      r.gif == (if s.isRecording then s.gif + Repeat(Frame(FrameDelay, Null), Accepted(s, times, frameInterval))
                else s.gif) &&
      r == s.(previousTime := r.previousTime, renderCount := r.renderCount, canvas := r.canvas, gif := r.gif)
    decreases |times|
  {
    if times == [] {
      assert s.gif + Repeat(Frame(FrameDelay, Null), 0) == s.gif;
    } else {
      var f := Frame(FrameDelay, Null);
      var s1 := Tick(s, times[0], frameInterval);
      var n := Accepted(s1, times[1..], frameInterval);
      TickRunEffect(s1, times[1..], frameInterval);
      if Gate(s.previousTime, times[0], frameInterval).Some? {
        AcceptedTick(s, times[0], frameInterval);
        if s.isRecording {
          assert s1.gif + Repeat(f, n) == s.gif + Repeat(f, n + 1) by {
            assert [f] + Repeat(f, n) == Repeat(f, n + 1);
          }
        }
      }
    }
  }

  /**
   * Each accepted frame moves the reference time forward by at least one
   * interval, and a run with no accepted frame leaves it where it was.
   */
  lemma {:induction false} ReferenceAdvance(s: State, times: seq<int>, frameInterval: int)
    requires frameInterval > 0
    ensures TickRun(s, times, frameInterval).previousTime - s.previousTime >=
            frameInterval * Accepted(s, times, frameInterval)
    ensures Accepted(s, times, frameInterval) == 0 ==>
            TickRun(s, times, frameInterval).previousTime == s.previousTime
    decreases |times|
  {
    if times != [] {
      var s1 := Tick(s, times[0], frameInterval);
      var n := Accepted(s1, times[1..], frameInterval);
      ReferenceAdvance(s1, times[1..], frameInterval);
      assert TickRun(s, times, frameInterval) == TickRun(s1, times[1..], frameInterval);
      if Gate(s.previousTime, times[0], frameInterval).Some? {
        AcceptedTick(s, times[0], frameInterval);
        assert s1.previousTime - s.previousTime >= frameInterval;
        assert Accepted(s, times, frameInterval) == n + 1;
        assert frameInterval * (n + 1) == frameInterval * n + frameInterval;
      } else {
        RejectedTick(s, times[0], frameInterval);
        assert Accepted(s, times, frameInterval) == n;
      }
    }
  }

  /** Once a frame has been accepted, the reference time never runs ahead of the frames' timestamps. */
  lemma {:induction false} ReferenceBehindLastFrame(s: State, times: seq<int>, frameInterval: int)
    requires frameInterval > 0
    requires |times| > 0 && NonDecreasing(times)
    requires Accepted(s, times, frameInterval) > 0
    ensures TickRun(s, times, frameInterval).previousTime <= Last(times)
    decreases |times|
  {
    var s1 := Tick(s, times[0], frameInterval);
    var rest := times[1..];
    if Gate(s.previousTime, times[0], frameInterval).Some? {
      AcceptedTick(s, times[0], frameInterval);
    } else {
      RejectedTick(s, times[0], frameInterval);
    }
    if rest == [] {
      assert TickRun(s, times, frameInterval) == s1;
    } else if Accepted(s1, rest, frameInterval) > 0 {
      ReferenceBehindLastFrame(s1, rest, frameInterval);
    } else {
      ReferenceAdvance(s1, rest, frameInterval);
      assert times[0] <= Last(times);
    }
  }

  /**
   * Over non-decreasing timestamps, the accepted frames, one interval each,
   * fit between the starting reference time and the last timestamp: the
   * gate never lets the frame rate drift above one frame per interval.
   */
  lemma AcceptedWithinReferenceSpan(s: State, times: seq<int>, frameInterval: int)
    requires frameInterval > 0
    requires |times| > 0 && NonDecreasing(times)
    ensures Accepted(s, times, frameInterval) > 0 ==>
            frameInterval * Accepted(s, times, frameInterval) <= Last(times) - s.previousTime
  {
    ReferenceAdvance(s, times, frameInterval);
    if Accepted(s, times, frameInterval) > 0 {
      ReferenceBehindLastFrame(s, times, frameInterval);
    }
  }

  lemma MulMonotone(m: int, a: int, b: int)
    requires m > 0 && a <= b
    ensures m * a <= m * b
  {
    assert m * b == m * a + m * (b - a);
  }

  lemma ProductBelow(k: int, m: int, t: int)
    requires m > 0 && m * k <= t
    ensures k <= t / m
  {
    var q := t / m;
    assert t < m * q + m;
    assert m * (q + 1) == m * q + m;
    if k > q {
      MulMonotone(m, q + 1, k);
      assert false;
    }
  }

  /**
   * When the reference time is less than one interval before `base` and
   * every timestamp is at least `base`, at most (Last - base) / interval + 1
   * frames are accepted.
   */
  lemma AcceptedFromAligned(s: State, times: seq<int>, frameInterval: int, base: int)
    requires frameInterval > 0
    requires |times| > 0 && NonDecreasing(times)
    requires base <= times[0] && base - s.previousTime < frameInterval
    ensures Accepted(s, times, frameInterval) <= (Last(times) - base) / frameInterval + 1
  {
    var n := Accepted(s, times, frameInterval);
    AcceptedWithinReferenceSpan(s, times, frameInterval);
    assert times[0] <= Last(times);
    if n > 0 {
      assert frameInterval * n == frameInterval * (n - 1) + frameInterval;
      ProductBelow(n - 1, frameInterval, Last(times) - base);
    }
  }

  /**
   * The bound stated for the render loop, `T / interval + 1` frames over a
   * span T, holds for a span whose first frame arrives less than one
   * interval after the reference time.
   */
  lemma AcceptedInAlignedSpan(s: State, times: seq<int>, frameInterval: int)
    requires frameInterval > 0
    requires |times| > 0 && NonDecreasing(times)
    requires times[0] - s.previousTime < frameInterval
    ensures Accepted(s, times, frameInterval) <= (Last(times) - times[0]) / frameInterval + 1
  {
    AcceptedFromAligned(s, times, frameInterval, times[0]);
  }

  /**
   * Over any span T of non-decreasing timestamps at most T / interval + 2
   * frames are accepted: a first frame that arrives late can be followed by
   * a catch-up one, because the gate keeps the remainder.
   */
  lemma AcceptedInSpan(s: State, times: seq<int>, frameInterval: int)
    requires frameInterval > 0
    requires |times| > 0 && NonDecreasing(times)
    ensures Accepted(s, times, frameInterval) <= (Last(times) - times[0]) / frameInterval + 2
  {
    var rest := times[1..];
    var s1 := Tick(s, times[0], frameInterval);
    assert times[0] <= Last(times);
    if Gate(s.previousTime, times[0], frameInterval).None? {
      AcceptedInAlignedSpan(s, times, frameInterval);
    } else if rest != [] {
      AcceptedTick(s, times[0], frameInterval);
      assert Last(rest) == Last(times);
      AcceptedFromAligned(s1, rest, frameInterval, times[0]);
    }
  }

  /**
   * With the interval 10 and the reference time 0, frames at 19, 20 and 30
   * are all accepted: three frames over a span of 11, one more than
   * 11 / 10 + 1.
   */
  lemma CatchUpBurst()
    ensures var s := Initial(0, Null);
      Accepted(s, [19, 20, 30], 10) == 3 && (30 - 19) / 10 + 1 == 2
  {
    var s := Initial(0, Null);
    var s1 := Tick(s, 19, 10);
    assert s1.previousTime == 10;
    var s2 := Tick(s1, 20, 10);
    assert s2.previousTime == 20;
    assert [19, 20, 30][1..] == [20, 30];
    assert [20, 30][1..] == [30];
    assert Accepted(s2, [30], 10) == 1;
  }
}
