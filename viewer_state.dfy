/**
 * The viewer's shared state as a value, and each event handler of main.js
 * as a function from the state before it to the state after it.
 *
 * main.js keeps this state in globals (`previousTime`, `isRecording`,
 * `gif`, `recordStartTime`, `scene.background`) and in the page (the
 * canvas, the timer element, the files offered for download). Rendering,
 * the GIF encoder and the browser calls are opaque: a render is recorded
 * as the background the canvas was drawn with, and a GIF session as its
 * list of frames.
 */
module ViewerState {
  import opened Wrappers
  import Readout

  /** The value of `scene.background`: null, a solid colour, or any other value it was given. */
  datatype Background = Null | Color(hex: nat) | Other(id: nat)

  /** `new THREE.Color(0x000000)`, what the finished GIF sets the background to. */
  const Black: Background := Color(0x000000)

  /** The delay every frame is added to the GIF with, in milliseconds. */
  const FrameDelay: nat := 100

  const ScreenshotName: string := "car-screenshot.png"
  const AnimationName: string := "car-animation.gif"

  /** A frame of a GIF session: its delay and a copy of the canvas. */
  datatype Frame = Frame(delay: nat, image: Background)

  /** A file offered for download: the still capture or a finished animation. */
  datatype Download = Png(name: string, image: Background) | Gif(name: string, frames: seq<Frame>)

  /**
   * `canvas` is the background the last render drew behind the model
   * (Null: the transparent clear colour); `renderCount` counts the calls of
   * `renderer.render`; `rendering` holds the sessions whose `gif.render()`
   * has been called and whose 'finished' callback has not yet run.
   */
  datatype State = State(
    previousTime: int,
    isRecording: bool,
    gif: seq<Frame>,
    recordStartTime: int,
    background: Background,
    canvas: Background,
    renderCount: nat,
    timerText: string,
    rendering: seq<seq<Frame>>,
    downloads: seq<Download>)

  /** The state before any event: idle, nothing drawn, nothing recorded. */
  function Initial(previousTime: int, background: Background): State
  {
    State(previousTime, false, [], 0, background, Null, 0, Readout.ResetText, [], [])
  }

  /**
   * The frame-rate gate of `animate`: None when less than one interval has
   * passed since the reference time, otherwise the new reference time, which
   * keeps the remainder of the elapsed time modulo the interval.
   */
  function Gate(previousTime: int, currentTime: int, frameInterval: int): (r: Option<int>)
    requires frameInterval > 0
    ensures r.None? <==> currentTime - previousTime < frameInterval
    ensures r.Some? ==> 0 <= currentTime - r.value < frameInterval
    ensures r.Some? ==> (currentTime - previousTime) / frameInterval >= 1
    ensures r.Some? ==>
      r.value - previousTime == frameInterval * ((currentTime - previousTime) / frameInterval)
  {
    var deltaTime := currentTime - previousTime;
    // deltaTime >= frameInterval > 0 here, where JavaScript's % and Dafny's agree
    if deltaTime < frameInterval then None
    else
      Some(currentTime - deltaTime % frameInterval)
  }

  /** `renderer.render(scene, camera)`: the canvas now shows the current background. */
  function Render(s: State): State
  {
    s.(canvas := s.background, renderCount := s.renderCount + 1)
  }

  /** One call of `animate(currentTime)`. */
  function Tick(s: State, currentTime: int, frameInterval: int): State
    requires frameInterval > 0
  {
    match Gate(s.previousTime, currentTime, frameInterval)
    case None => s
    case Some(next) =>
      var s1 := s.(previousTime := next);
      var s2 :=
        if s1.isRecording then
          var currentBackground := s1.background;
          Render(s1.(background := Null)).(background := currentBackground)
        else Render(s1);
      if s2.isRecording then s2.(gif := s2.gif + [Frame(FrameDelay, s2.canvas)]) else s2
  }

  /** A click of the record button at time `now`. */
  function ClickRecord(s: State, now: int): State
  {
    if !s.isRecording then
      // main.js saves the background here but never reads it back
      s.(gif := [], background := Null, isRecording := true, recordStartTime := now)
    else
      s.(isRecording := false, timerText := Readout.ResetText, rendering := s.rendering + [s.gif])
  }

  /** A run of the one-second timer interval; the interval exists exactly while recording. */
  function TimerInterval(s: State, now: int): State
  {
    if s.isRecording then s.(timerText := Readout.Format(now - s.recordStartTime)) else s
  }

  /** A click of the screenshot button. */
  function Screenshot(s: State): State
  {
    var currentBackground := s.background;
    var s1 := Render(s.(background := Null));
    var s2 := s1.(downloads := s1.downloads + [Png(ScreenshotName, s1.canvas)]);
    Render(s2.(background := currentBackground))
  }

  /** The 'finished' callback of the `index`-th session still being encoded. */
  function Finished(s: State, index: nat): State
    requires index < |s.rendering|
  {
    var blob := s.rendering[index];
    var s1 := s.(rendering := s.rendering[..index] + s.rendering[index + 1..],
                 downloads := s.downloads + [Gif(AnimationName, blob)]);
    Render(s1.(background := Black))
  }

  /** The events that drive the viewer. */
  datatype Event =
    | AnimationFrame(time: int)
    | RecordClick(now: int)
    | ScreenshotClick
    | TimerFired(now: int)
    | GifFinished(index: nat)

  /**
   * One event. A GifFinished naming no session in flight stands for no
   * event: such a callback does not exist.
   */
  function Step(s: State, e: Event, frameInterval: int): State
    requires frameInterval > 0
  {
    match e
    case AnimationFrame(t) => Tick(s, t, frameInterval)
    case RecordClick(now) => ClickRecord(s, now)
    case ScreenshotClick => Screenshot(s)
    case TimerFired(now) => TimerInterval(s, now)
    case GifFinished(i) => if i < |s.rendering| then Finished(s, i) else s
  }

  /** The events in order. */
  function Run(s: State, events: seq<Event>, frameInterval: int): State
    requires frameInterval > 0
    decreases |events|
  {
    if events == [] then s else Run(Step(s, events[0], frameInterval), events[1..], frameInterval)
  }
}
