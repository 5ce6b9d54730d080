/**
 * The viewer as the page runs it: one object whose fields are main.js's
 * shared state, and one method per handler, each updating the fields step
 * by step as the handler does. Every method is proved to leave the state
 * its function in ViewerState describes.
 */
module ViewerContext {
  import Readout
  import opened ViewerState

  class Viewer {
    /** The minimum time between two rendered frames, in milliseconds. */
    const frameInterval: int

    var previousTime: int
    var isRecording: bool
    var gif: seq<Frame>
    var recordStartTime: int
    var background: Background
    var canvas: Background
    var renderCount: nat
    var timerText: string
    var rendering: seq<seq<Frame>>
    var downloads: seq<Download>

    predicate Valid() {
      frameInterval > 0
    }

    /** The fields as one value. */
    function Model(): State
      reads this
    {
      State(previousTime, isRecording, gif, recordStartTime, background, canvas,
            renderCount, timerText, rendering, downloads)
    }

    constructor (frameInterval: int, previousTime: int, background: Background)
      requires frameInterval > 0
      ensures Valid() && this.frameInterval == frameInterval
      ensures Model() == Initial(previousTime, background)
    {
      this.frameInterval := frameInterval;
      this.previousTime := previousTime;
      this.background := background;
      isRecording := false;
      gif := [];
      recordStartTime := 0;
      canvas := Null;
      renderCount := 0;
      timerText := Readout.ResetText;
      rendering := [];
      downloads := [];
    }

    /** `renderer.render(scene, camera)`. */
    method RenderScene()
      modifies this
      ensures Model() == Render(old(Model()))
    {
      canvas := background;
      renderCount := renderCount + 1;
    }

    /** `animate(currentTime)`; `accepted` says whether the gate let the frame through. */
    method Animate(currentTime: int) returns (accepted: bool)
      requires Valid()
      modifies this
      ensures accepted <==> currentTime - old(previousTime) >= frameInterval
      ensures Model() == Tick(old(Model()), currentTime, frameInterval)
    {
      var deltaTime := currentTime - previousTime;
      if deltaTime < frameInterval {
        return false;
      }
      previousTime := currentTime - deltaTime % frameInterval;
      if isRecording {
        var currentBackground := background;
        background := Null;
        RenderScene();
        background := currentBackground;
      } else {
        RenderScene();
      }
      if isRecording {
        gif := gif + [Frame(FrameDelay, canvas)];
      }
      accepted := true;
    }

    /** The click handler of the record button, at time `now`. */
    method ClickRecordButton(now: int)
      modifies this
      ensures Model() == ClickRecord(old(Model()), now)
    {
      if !isRecording {
        gif := [];
        var currentBackground := background;
        background := Null;
        isRecording := true;
        recordStartTime := now;
      } else {
        isRecording := false;
        timerText := Readout.ResetText;
        rendering := rendering + [gif];
      }
    }

    /** One run of the timer interval, which exists exactly while recording. */
    method TimerTick(now: int)
      modifies this
      ensures Model() == TimerInterval(old(Model()), now)
    {
      if isRecording {
        var elapsed := now - recordStartTime;
        var text := Readout.Format(elapsed);
        timerText := text;
      }
    }

    /** The click handler of the screenshot button. */
    method ClickScreenshot()
      modifies this
      ensures Model() == Screenshot(old(Model()))
      ensures background == old(background)
    {
      var currentBackground := background;
      background := Null;
      RenderScene();
      downloads := downloads + [Png(ScreenshotName, canvas)];
      background := currentBackground;
      RenderScene();
    }

    /** The 'finished' callback of the `index`-th session being encoded. */
    method FinishGif(index: nat)
      requires index < |rendering|
      modifies this
      ensures Model() == Finished(old(Model()), index)
      ensures background == Black
    {
      var blob := rendering[index];
      rendering := rendering[..index] + rendering[index + 1..];
      downloads := downloads + [Gif(AnimationName, blob)];
      background := Black;
      RenderScene();
    }
  }
}
