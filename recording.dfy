/**
 * The record button's state machine, the screenshot handler and the GIF
 * 'finished' callback, and what holds over any sequence of viewer events.
 */
module Recording {
  import Readout
  import opened ViewerState
  import opened FrameRate

  /** A click from idle starts a new, empty session at `now` and clears the background. */
  lemma StartRecording(s: State, now: int)
    requires !s.isRecording
    ensures var r := ClickRecord(s, now);
      r.isRecording && r.gif == [] && r.recordStartTime == now && r.background == Null &&
      r == s.(isRecording := true, gif := [], recordStartTime := now, background := Null)
  {
  }

  /**
   * A click while recording stops: no frame is added any more, the readout
   * is reset and exactly the current session is handed to the encoder; the
   * background is left as it is.
   */
  lemma StopRecording(s: State, now: int)
    requires s.isRecording
    ensures var r := ClickRecord(s, now);
      !r.isRecording && r.timerText == Readout.ResetText &&
      r.rendering == s.rendering + [s.gif] &&
      r == s.(isRecording := false, timerText := Readout.ResetText, rendering := s.rendering + [s.gif])
  {
  }

  /** Two clicks from idle return to idle with exactly one new session, an empty one, being encoded. */
  lemma TwoClicks(s: State, start: int, stop: int)
    requires !s.isRecording
    ensures var r := ClickRecord(ClickRecord(s, start), stop);
      !r.isRecording && r.rendering == s.rendering + [[]] && r.downloads == s.downloads &&
      r.previousTime == s.previousTime
  {
  }

  /**
   * A whole recording: a click from idle, animation frames, a click. The
   * one session handed to the encoder holds one transparent frame of delay
   * 100 for each animation frame the gate accepted.
   */
  lemma RecordedSession(s: State, start: int, times: seq<int>, stop: int, frameInterval: int)
    requires frameInterval > 0
    requires !s.isRecording
    ensures var r := ClickRecord(TickRun(ClickRecord(s, start), times, frameInterval), stop);
      !r.isRecording &&
      r.rendering == s.rendering + [Repeat(Frame(FrameDelay, Null), Accepted(s, times, frameInterval))] &&
      r.downloads == s.downloads && r.timerText == Readout.ResetText
  {
    var s1 := ClickRecord(s, start);
    TickRunEffect(s1, times, frameInterval);
    AcceptedByReference(s1, s, times, frameInterval);
    var frames := Repeat(Frame(FrameDelay, Null), Accepted(s, times, frameInterval));
    assert s1.gif + frames == frames;
  }

  /** While recording, the timer shows the time since the recording started; otherwise it fires no more. */
  lemma TimerReadout(s: State, now: int)
    ensures s.isRecording ==>
      TimerInterval(s, now) == s.(timerText := Readout.Format(now - s.recordStartTime))
    ensures !s.isRecording ==> TimerInterval(s, now) == s
  {
  }

  /**
   * The still capture: the downloaded image is drawn with no background,
   * then the canvas is drawn again and `scene.background` is what it was
   * before the click.
   */
  lemma ScreenshotRestoresBackground(s: State)
    ensures var r := Screenshot(s);
      r.background == s.background && r.canvas == s.background &&
      r.downloads == s.downloads + [Png(ScreenshotName, Null)] &&
      r.renderCount == s.renderCount + 2 &&
      r == s.(canvas := s.background, renderCount := s.renderCount + 2, downloads := r.downloads)
  {
  }

  /**
   * The 'finished' callback downloads its session's frames, takes that
   * session out of the ones being encoded and sets the background to black,
   * not to the value it had before recording.
   */
  lemma FinishedSession(s: State, index: nat)
    requires index < |s.rendering|
    ensures var r := Finished(s, index);
      r.downloads == s.downloads + [Gif(AnimationName, s.rendering[index])] &&
      |r.rendering| == |s.rendering| - 1 &&
      multiset(r.rendering) + multiset{s.rendering[index]} == multiset(s.rendering) &&
      r.background == Black && r.canvas == Black &&
      r.isRecording == s.isRecording && r.gif == s.gif
  {
    var rs := s.rendering;
    assert rs == rs[..index] + [rs[index]] + rs[index + 1..];
  }

  /** Every frame is transparent with delay 100. */
  ghost predicate TransparentFrames(frames: seq<Frame>) {
    forall k :: 0 <= k < |frames| ==> frames[k] == Frame(FrameDelay, Null)
  }

  /**
   * What the capture promises: every frame of the current session, of the
   * sessions being encoded and of every downloaded animation is
   * transparent with delay 100, and every downloaded still is transparent.
   */
  ghost predicate CapturesTransparent(s: State) {
    TransparentFrames(s.gif) &&
    (forall k :: 0 <= k < |s.rendering| ==> TransparentFrames(s.rendering[k])) &&
    (forall k :: 0 <= k < |s.downloads| ==>
      match s.downloads[k]
      case Png(_, image) => image == Null
      case Gif(_, frames) => TransparentFrames(frames))
  }

  lemma InitialCapturesTransparent(previousTime: int, background: Background)
    ensures CapturesTransparent(Initial(previousTime, background))
  {
  }

  lemma StepKeepsCapturesTransparent(s: State, e: Event, frameInterval: int)
    requires frameInterval > 0
    requires CapturesTransparent(s)
    ensures CapturesTransparent(Step(s, e, frameInterval))
  {
    match e
    case AnimationFrame(t) =>
      if Gate(s.previousTime, t, frameInterval).Some? {
        AcceptedTick(s, t, frameInterval);
      }
    case RecordClick(now) =>
    case ScreenshotClick =>
      ScreenshotRestoresBackground(s);
    case TimerFired(now) =>
    case GifFinished(i) =>
      if i < |s.rendering| {
        var r := Finished(s, i);
        forall k | 0 <= k < |r.rendering| ensures TransparentFrames(r.rendering[k]) {
          if k < i {
            assert r.rendering[k] == s.rendering[k];
          } else {
            assert r.rendering[k] == s.rendering[k + 1];
          }
        }
        assert r.downloads[|s.downloads|] == Gif(AnimationName, s.rendering[i]);
      }
  }

  /** From the start, every still and every animation the viewer produces is transparent. */
  lemma {:induction false} RunKeepsCapturesTransparent(s: State, events: seq<Event>, frameInterval: int)
    requires frameInterval > 0
    requires CapturesTransparent(s)
    ensures CapturesTransparent(Run(s, events, frameInterval))
    decreases |events|
  {
    if events != [] {
      StepKeepsCapturesTransparent(s, events[0], frameInterval);
      RunKeepsCapturesTransparent(Step(s, events[0], frameInterval), events[1..], frameInterval);
    }
  }

  function GifCount(downloads: seq<Download>): nat
  {
    if downloads == [] then 0
    else GifCount(downloads[..|downloads| - 1]) + (if downloads[|downloads| - 1].Gif? then 1 else 0)
  }

  /** Sessions handed to the encoder so far: those still encoding and those downloaded. */
  function Outputs(s: State): nat
  {
    |s.rendering| + GifCount(s.downloads)
  }

  function Clicks(events: seq<Event>): nat
  {
    if events == [] then 0 else (if events[0].RecordClick? then 1 else 0) + Clicks(events[1..])
  }

  lemma GifCountAppend(downloads: seq<Download>, d: Download)
    ensures GifCount(downloads + [d]) == GifCount(downloads) + (if d.Gif? then 1 else 0)
  {
    assert (downloads + [d])[..|downloads|] == downloads;
  }

  /** Only a click that stops a recording hands a session to the encoder. */
  lemma StepOutputs(s: State, e: Event, frameInterval: int)
    requires frameInterval > 0
    ensures var r := Step(s, e, frameInterval);
      r.isRecording == (if e.RecordClick? then !s.isRecording else s.isRecording) &&
      Outputs(r) == Outputs(s) + (if e.RecordClick? && s.isRecording then 1 else 0)
  {
    match e
    case AnimationFrame(t) =>
      if Gate(s.previousTime, t, frameInterval).Some? {
        AcceptedTick(s, t, frameInterval);
      }
    case RecordClick(now) =>
    case ScreenshotClick =>
      GifCountAppend(s.downloads, Png(ScreenshotName, Null));
    case TimerFired(now) =>
    case GifFinished(i) =>
      if i < |s.rendering| {
        GifCountAppend(s.downloads, Gif(AnimationName, s.rendering[i]));
      }
  }

  lemma ParityArithmetic(click: bool, recording: bool, clicks: nat)
    ensures var after := if click then !recording else recording;
      var total := clicks + (if click then 1 else 0);
      (after != (clicks % 2 == 1)) == (recording != (total % 2 == 1))
  {
  }

  lemma OutputArithmetic(click: bool, recording: bool, clicks: nat)
    ensures var after := if click then !recording else recording;
      var total := clicks + (if click then 1 else 0);
      (if click && recording then 1 else 0) + (clicks + (if after then 1 else 0)) / 2 ==
        (total + (if recording then 1 else 0)) / 2
  {
  }

  /** Over any sequence of events the record button alone decides whether the viewer records: each click flips it. */
  lemma {:induction false} RunRecording(s: State, events: seq<Event>, frameInterval: int)
    requires frameInterval > 0
    ensures Run(s, events, frameInterval).isRecording == (s.isRecording != (Clicks(events) % 2 == 1))
    decreases |events|
  {
    if events != [] {
      var s1 := Step(s, events[0], frameInterval);
      StepOutputs(s, events[0], frameInterval);
      RunRecording(s1, events[1..], frameInterval);
      ParityArithmetic(events[0].RecordClick?, s.isRecording, Clicks(events[1..]));
    }
  }

  /**
   * Over any sequence of events exactly one session is handed to the
   * encoder per start/stop pair of clicks: never two for one recording.
   */
  lemma {:induction false} RunOutputs(s: State, events: seq<Event>, frameInterval: int)
    requires frameInterval > 0
    ensures Outputs(Run(s, events, frameInterval)) ==
            Outputs(s) + (Clicks(events) + (if s.isRecording then 1 else 0)) / 2
    decreases |events|
  {
    if events != [] {
      var s1 := Step(s, events[0], frameInterval);
      StepOutputs(s, events[0], frameInterval);
      RunOutputs(s1, events[1..], frameInterval);
      OutputArithmetic(events[0].RecordClick?, s.isRecording, Clicks(events[1..]));
    }
  }
}
