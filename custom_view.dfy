/**
 * CustomView as the application runs it: an object whose frame callback and
 * lifecycle handlers make calls, in order, on the Choreographer and on the
 * ModelViewer. Each handler is proved to leave the view in the state the
 * corresponding step of FrameLoop computes, so every property proved there
 * holds of the object.
 */
module ViewBinding {
  import opened Common
  import opened FrameLoop

  class CustomView {
    var registrations: nat       // entries of frameScheduler in the Choreographer's queue
    const startTime: int         // frameScheduler.startTime, System.nanoTime() at construction
    var animator: Option<nat>    // modelViewer.animator, by its animationCount
    const autoScaleEnabled: bool // automation.viewerOptions.autoScaleEnabled
    var trace: seq<Event>        // every call made on the Choreographer and the ModelViewer

    /** The view's state as a value. */
    function State(): (s: ViewState)
      reads this
    {
      ViewState(registrations, startTime, animator, autoScaleEnabled, trace)
    }

    /** init: the viewer is created and the frame callback posted; `now` is the clock reading taken for startTime. */
    constructor (now: int, autoScaleEnabled: bool)
      ensures State() == Created(now, autoScaleEnabled)
    {
      startTime := now;
      this.autoScaleEnabled := autoScaleEnabled;
      registrations := 0;
      animator := None;
      trace := [];
      new;
      PostFrameCallback();
    }

    /** `choreographer.postFrameCallback(frameScheduler)`: one more entry, whatever is queued already. */
    method PostFrameCallback()
      modifies this
      ensures registrations == old(registrations) + 1
      ensures trace == old(trace) + [Event.PostFrameCallback] && animator == old(animator)
    {
      registrations := registrations + 1;
      trace := trace + [Event.PostFrameCallback];
    }

    /** `choreographer.removeFrameCallback(frameScheduler)`: every entry is taken out. */
    method RemoveFrameCallback()
      modifies this
      ensures registrations == 0
      ensures trace == old(trace) + [Event.RemoveFrameCallback] && animator == old(animator)
    {
      registrations := 0;
      trace := trace + [Event.RemoveFrameCallback];
    }

    /** `modelViewer.destroyModel()`: the model and its animator are released. */
    method DestroyModel()
      modifies this
      ensures animator == None && registrations == old(registrations)
      ensures trace == old(trace) + [Event.DestroyModel]
    {
      animator := None;
      trace := trace + [Event.DestroyModel];
    }

    /**
     * FrameCallback.doFrame, run by the Choreographer after it has taken this
     * entry out of its queue (`registrations` no longer counts it); the
     * re-post puts it back. `FrameLoop.Vsync` performs that removal.
     */
    method DoFrame(frameTimeNanos: int)
      modifies this
      ensures State() == FrameStep(old(State()), frameTimeNanos)
    {
      PostFrameCallback();
      if animator.Some? {
        var animationCount := animator.value;
        if animationCount > 0 {
          var elapsed := WrapLong(frameTimeNanos - startTime);
          trace := trace + [ApplyAnimation(0, elapsed)];
          trace := trace + [UpdateBoneMatrices];
        }
      }
      trace := trace + [Render(frameTimeNanos)];
    }

    /** onActivityResumed. */
    method OnActivityResumed()
      modifies this
      ensures State() == ResumeStep(old(State()))
    {
      PostFrameCallback();
    }

    /** onActivityPaused. */
    method OnActivityPaused()
      modifies this
      ensures State() == PauseStep(old(State()))
    {
      RemoveFrameCallback();
    }

    /** onActivityDestroyed. */
    method OnActivityDestroyed()
      modifies this
      ensures State() == DestroyStep(old(State()))
    {
      RemoveFrameCallback();
      DestroyModel();
    }

    /** The ON_RESUME handler. */
    method OnResume()
      modifies this
      ensures State() == ResumeStep(old(State()))
    {
      PostFrameCallback();
    }

    /** The ON_PAUSE handler. */
    method OnPause()
      modifies this
      ensures State() == PauseStep(old(State()))
    {
      RemoveFrameCallback();
    }

    /** The ON_DESTROY handler. */
    method OnDestroy()
      modifies this
      ensures State() == DestroyStep(old(State()))
    {
      RemoveFrameCallback();
      DestroyModel();
    }

    /** setModel: `loaded` is the animator of the model the engine parsed from the buffer (none if it yielded none). */
    method SetModel(loaded: Option<nat>)
      modifies this
      ensures State() == SetModelStep(old(State()), loaded)
    {
      animator := loaded;
      trace := trace + [LoadModelGlb];
      if autoScaleEnabled {
        trace := trace + [TransformToUnitCube];
      } else {
        trace := trace + [ClearRootTransform];
      }
    }
  }
}
