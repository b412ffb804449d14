/**
 * CustomView's frame loop and lifecycle binding, as values.
 *
 * The view talks to two collaborators it does not own: the display's
 * Choreographer, which keeps a queue of frame callbacks, and the engine's
 * ModelViewer. The model keeps how many times the view's FrameCallback
 * sits in the Choreographer's queue (posting does not check for an existing
 * entry; removing takes out every entry), the callback's fixed start time,
 * the animator of the loaded model (by its number of animations), and the
 * trace of every call the view makes on either collaborator.
 */
module FrameLoop {
  import opened Common

  /** A call the view makes on the Choreographer or on the ModelViewer. */
  datatype Event =
    | PostFrameCallback
    | RemoveFrameCallback
    | ApplyAnimation(index: nat, elapsedNanos: int)
    | UpdateBoneMatrices
    | Render(frameTimeNanos: int)
    | LoadModelGlb
    | TransformToUnitCube
    | ClearRootTransform
    | DestroyModel

  datatype ViewState = ViewState(
    registrations: nat,       // entries of the FrameCallback in the Choreographer's queue
    startTime: int,           // FrameCallback.startTime, read from the clock once
    animator: Option<nat>,    // modelViewer.animator, by its animationCount
    autoScaleEnabled: bool,   // the viewer option consulted by setModel
    trace: seq<Event>)        // every call made so far, oldest first

  // ---------------------------------------------------------------------------
  // Steps of the view
  // ---------------------------------------------------------------------------

  /** The view after construction: the callback posted once, no model loaded. */
  function Created(startTime: int, autoScaleEnabled: bool): (s: ViewState)
    ensures s.registrations == 1 && s.trace == [PostFrameCallback]
    ensures s.startTime == startTime && s.animator == None
    ensures s.autoScaleEnabled == autoScaleEnabled
  {
    ViewState(1, startTime, None, autoScaleEnabled, [PostFrameCallback])
  }

  /** `frameTimeNanos - startTime` in `Long` arithmetic: the animation time in nanoseconds. */
  function Elapsed(startTime: int, frameTimeNanos: int): (e: int)
    ensures IsLong(e)
    ensures (frameTimeNanos - startTime - e) % 0x1_0000_0000_0000_0000 == 0
    ensures IsLong(frameTimeNanos - startTime) ==> e == frameTimeNanos - startTime
  {
    WrapLong(frameTimeNanos - startTime)
  }

  /** The frame advances an animation: an animator exists and it has at least one animation. */
  predicate Animates(s: ViewState)
  {
    s.animator.Some? && s.animator.value > 0
  }

  /** The calls one doFrame makes, in order. */
  function FrameEvents(s: ViewState, frameTimeNanos: int): seq<Event>
  {
    [PostFrameCallback]
    + (if Animates(s) then [ApplyAnimation(0, Elapsed(s.startTime, frameTimeNanos)), UpdateBoneMatrices] else [])
    + [Render(frameTimeNanos)]
  }

  /** FrameCallback.doFrame: re-post, animate clip 0 if there is one, render. */
  function FrameStep(s: ViewState, frameTimeNanos: int): (t: ViewState)
    ensures t.registrations == s.registrations + 1
    ensures t.startTime == s.startTime && t.animator == s.animator && t.autoScaleEnabled == s.autoScaleEnabled
    ensures s.trace < t.trace && t.trace[|t.trace| - 1] == Render(frameTimeNanos)
  {
    s.(registrations := s.registrations + 1, trace := s.trace + FrameEvents(s, frameTimeNanos))
  }

  /** onActivityResumed (and ON_RESUME): post the callback again. */
  function ResumeStep(s: ViewState): (t: ViewState)
    ensures t.registrations == s.registrations + 1
    ensures t.startTime == s.startTime && t.animator == s.animator && t.autoScaleEnabled == s.autoScaleEnabled
    ensures t.trace == s.trace + [PostFrameCallback]
  {
    s.(registrations := s.registrations + 1, trace := s.trace + [PostFrameCallback])
  }

  /** onActivityPaused (and ON_PAUSE): take every entry of the callback out of the queue. */
  function PauseStep(s: ViewState): (t: ViewState)
    ensures t.registrations == 0
    ensures t.startTime == s.startTime && t.animator == s.animator && t.autoScaleEnabled == s.autoScaleEnabled
    ensures t.trace == s.trace + [RemoveFrameCallback]
  {
    s.(registrations := 0, trace := s.trace + [RemoveFrameCallback])
  }

  /** onActivityDestroyed (and ON_DESTROY): remove the callback, then destroy the model. */
  function DestroyStep(s: ViewState): (t: ViewState)
    ensures t.registrations == 0 && t.animator == None
    ensures t.startTime == s.startTime && t.autoScaleEnabled == s.autoScaleEnabled
    ensures t.trace == s.trace + [RemoveFrameCallback, DestroyModel]
  {
    s.(registrations := 0, animator := None, trace := s.trace + [RemoveFrameCallback, DestroyModel])
  }

  /** setModel: load the buffer (the engine yields the new model's animator, or none), then scale or reset the root. */
  function SetModelStep(s: ViewState, loaded: Option<nat>): (t: ViewState)
    ensures t.registrations == s.registrations && t.animator == loaded
    ensures t.startTime == s.startTime && t.autoScaleEnabled == s.autoScaleEnabled
    ensures |t.trace| == |s.trace| + 2 && s.trace < t.trace && t.trace[|s.trace|] == LoadModelGlb
  {
    s.(animator := loaded,
       trace := s.trace + [LoadModelGlb, if s.autoScaleEnabled then TransformToUnitCube else ClearRootTransform])
  }

  // ---------------------------------------------------------------------------
  // The Choreographer and a run of the application
  // ---------------------------------------------------------------------------

  /** `k` of the queued entries run at one display frame, each re-posting itself. */
  function FrameSteps(s: ViewState, frameTimeNanos: int, k: nat): (t: ViewState)
    decreases k
  {
    if k == 0 then s else FrameSteps(FrameStep(s, frameTimeNanos), frameTimeNanos, k - 1)
  }

  /**
   * A display frame: the Choreographer takes every queued entry of the
   * callback out of its queue and runs each one.
   */
  function Vsync(s: ViewState, frameTimeNanos: int): (t: ViewState)
  {
    FrameSteps(s.(registrations := 0), frameTimeNanos, s.registrations)
  }

  /** What can happen to the view after construction. */
  datatype Input =
    | Frame(frameTimeNanos: int)
    | Resumed
    | Paused
    | Destroyed
    | Load(loaded: Option<nat>)

  function Step(s: ViewState, i: Input): ViewState
  {
    match i
    case Frame(t) => Vsync(s, t)
    case Resumed => ResumeStep(s)
    case Paused => PauseStep(s)
    case Destroyed => DestroyStep(s)
    case Load(loaded) => SetModelStep(s, loaded)
  }

  function Run(s: ViewState, inputs: seq<Input>): ViewState
    decreases |inputs|
  {
    if inputs == [] then s else Run(Step(s, inputs[0]), inputs[1..])
  }

  // ---------------------------------------------------------------------------
  // Counting calls in a trace
  // ---------------------------------------------------------------------------

  predicate IsRender(e: Event) { e.Render? }
  predicate IsAnimation(e: Event) { e.ApplyAnimation? || e.UpdateBoneMatrices? }
  predicate IsDestroyModel(e: Event) { e.DestroyModel? }

  /** How many calls of the trace satisfy `p`. */
  function Count(tr: seq<Event>, p: Event -> bool): (n: nat)
    ensures n <= |tr|
    decreases |tr|
  {
    if tr == [] then 0 else Count(tr[..|tr| - 1], p) + (if p(tr[|tr| - 1]) then 1 else 0)
  }

  lemma {:induction false} CountAppend(a: seq<Event>, b: seq<Event>, p: Event -> bool)
    ensures Count(a + b, p) == Count(a, p) + Count(b, p)
    decreases |b|
  {
    if b != [] {
      var last := |b| - 1;
      assert (a + b)[..|a + b| - 1] == a + b[..last];
      CountAppend(a, b[..last], p);
    } else {
      assert a + b == a;
    }
  }

  // ---------------------------------------------------------------------------
  // One frame
  // ---------------------------------------------------------------------------

  /**
   * doFrame re-posts first, renders exactly once and last with the frame's
   * own time, and between the two applies clip 0 at the elapsed time and
   * updates the bone matrices exactly when the model animates.
   */
  lemma FrameOrder(s: ViewState, frameTimeNanos: int)
    ensures var e := FrameEvents(s, frameTimeNanos);
      && FrameStep(s, frameTimeNanos).trace == s.trace + e
      && FrameStep(s, frameTimeNanos).registrations == s.registrations + 1
      && |e| == (if Animates(s) then 4 else 2)
      && e[0] == PostFrameCallback
      && e[|e| - 1] == Render(frameTimeNanos)
      && Count(e, IsRender) == 1
      && Count(e, IsAnimation) == (if Animates(s) then 2 else 0)
      && (Animates(s) ==> e[1] == ApplyAnimation(0, Elapsed(s.startTime, frameTimeNanos)) && e[2] == UpdateBoneMatrices)
  {
    var e := FrameEvents(s, frameTimeNanos);
    var mid := if Animates(s) then [ApplyAnimation(0, Elapsed(s.startTime, frameTimeNanos)), UpdateBoneMatrices] else [];
    assert e == [PostFrameCallback] + mid + [Render(frameTimeNanos)];
    CountAppend([PostFrameCallback] + mid, [Render(frameTimeNanos)], IsRender);
    CountAppend([PostFrameCallback] + mid, [Render(frameTimeNanos)], IsAnimation);
    CountAppend([PostFrameCallback], mid, IsRender);
    CountAppend([PostFrameCallback], mid, IsAnimation);
    if Animates(s) {
      CountAppend([mid[0]], [mid[1]], IsRender);
      CountAppend([mid[0]], [mid[1]], IsAnimation);
      assert mid == [mid[0]] + [mid[1]];
    }
  }

  /** With clock readings from the monotonic clock (non-negative `Long`s), elapsed time is non-negative and follows the frame time. */
  lemma ElapsedMonotone(startTime: int, t1: int, t2: int)
    requires 0 <= startTime <= t1 <= t2 <= LONG_MAX
    ensures 0 <= Elapsed(startTime, t1) <= Elapsed(startTime, t2)
    ensures Elapsed(startTime, t1) == t1 - startTime
  {
  }

  /** Without that assumption the subtraction can wrap: a start time far below the frame time gives a negative elapsed time. */
  lemma ElapsedCanWrap()
    ensures Elapsed(LONG_MIN, 0) == LONG_MIN
    ensures Elapsed(-1, LONG_MAX) == LONG_MIN
  {
  }

  // ---------------------------------------------------------------------------
  // Frames per display refresh
  // ---------------------------------------------------------------------------

  lemma {:induction false} FrameStepsCount(s: ViewState, frameTimeNanos: int, k: nat)
    ensures var t := FrameSteps(s, frameTimeNanos, k);
      && t.registrations == s.registrations + k
      && t.startTime == s.startTime && t.animator == s.animator
      && Count(t.trace, IsRender) == Count(s.trace, IsRender) + k
    decreases k
  {
    if k > 0 {
      var s1 := FrameStep(s, frameTimeNanos);
      FrameOrder(s, frameTimeNanos);
      CountAppend(s.trace, FrameEvents(s, frameTimeNanos), IsRender);
      FrameStepsCount(s1, frameTimeNanos, k - 1);
    }
  }

  /**
   * A display refresh renders once per queued entry of the callback and
   * leaves as many entries queued as before: posting twice means rendering
   * twice per refresh, and an empty queue means no frame at all.
   */
  lemma VsyncRendersPerRegistration(s: ViewState, frameTimeNanos: int)
    ensures var t := Vsync(s, frameTimeNanos);
      && t.registrations == s.registrations
      && Count(t.trace, IsRender) == Count(s.trace, IsRender) + s.registrations
      && (s.registrations == 0 ==> t == s)
  {
    FrameStepsCount(s.(registrations := 0), frameTimeNanos, s.registrations);
  }

  /** The view is posted at construction and again by the first resume, so each refresh then renders twice. */
  lemma CreatedThenResumedRendersTwice(startTime: int, autoScaleEnabled: bool, frameTimeNanos: int)
    ensures var s := ResumeStep(Created(startTime, autoScaleEnabled));
      && s.registrations == 2
      && Count(Vsync(s, frameTimeNanos).trace, IsRender) == 2
  {
    var s := ResumeStep(Created(startTime, autoScaleEnabled));
    VsyncRendersPerRegistration(s, frameTimeNanos);
    assert s.trace[..1] == [PostFrameCallback];
  }

  /** Pausing and resuming, whatever was queued before, leaves exactly one entry: one render per refresh. */
  lemma PauseThenResume(s: ViewState, frameTimeNanos: int)
    ensures var t := ResumeStep(PauseStep(s));
      && t.registrations == 1
      && Count(Vsync(t, frameTimeNanos).trace, IsRender) == Count(t.trace, IsRender) + 1
  {
    VsyncRendersPerRegistration(ResumeStep(PauseStep(s)), frameTimeNanos);
  }

  // ---------------------------------------------------------------------------
  // Runs
  // ---------------------------------------------------------------------------

  /** The trace only grows, and the start time never changes. */
  lemma {:induction false} RunExtends(s: ViewState, inputs: seq<Input>)
    ensures var t := Run(s, inputs); t.startTime == s.startTime && s.trace <= t.trace
    decreases |inputs|
  {
    if inputs != [] {
      var s1 := Step(s, inputs[0]);
      assert s1.startTime == s.startTime && s.trace <= s1.trace by {
        if inputs[0].Frame? {
          FrameStepsExtend(s.(registrations := 0), inputs[0].frameTimeNanos, s.registrations);
        }
      }
      RunExtends(s1, inputs[1..]);
    }
  }

  lemma {:induction false} FrameStepsExtend(s: ViewState, frameTimeNanos: int, k: nat)
    ensures var t := FrameSteps(s, frameTimeNanos, k); t.startTime == s.startTime && s.trace <= t.trace
    decreases k
  {
    if k > 0 {
      FrameStepsExtend(FrameStep(s, frameTimeNanos), frameTimeNanos, k - 1);
    }
  }

  /**
   * Once the callback is out of the queue (after a pause or a destroy), no
   * frame is rendered or animated until a resume posts it again.
   */
  lemma {:induction false} NoFramesWhileIdle(s: ViewState, inputs: seq<Input>)
    requires s.registrations == 0
    requires forall i :: 0 <= i < |inputs| ==> inputs[i] != Resumed
    ensures var t := Run(s, inputs);
      && t.registrations == 0
      && Count(t.trace, IsRender) == Count(s.trace, IsRender)
      && Count(t.trace, IsAnimation) == Count(s.trace, IsAnimation)
    decreases |inputs|
  {
    if inputs != [] {
      var s1 := Step(s, inputs[0]);
      match inputs[0] {
        case Frame(_) =>
          assert s1 == s;
        case Paused =>
          CountAppend(s.trace, [RemoveFrameCallback], IsRender);
          CountAppend(s.trace, [RemoveFrameCallback], IsAnimation);
        case Destroyed =>
          CountAppend(s.trace, [RemoveFrameCallback, DestroyModel], IsRender);
          CountAppend(s.trace, [RemoveFrameCallback, DestroyModel], IsAnimation);
          assert [RemoveFrameCallback, DestroyModel][..1] == [RemoveFrameCallback];
        case Load(_) =>
          var e := [LoadModelGlb, if s.autoScaleEnabled then TransformToUnitCube else ClearRootTransform];
          CountAppend(s.trace, e, IsRender);
          CountAppend(s.trace, e, IsAnimation);
          assert e[..1] == [LoadModelGlb];
      }
      NoFramesWhileIdle(s1, inputs[1..]);
    }
  }

  /** Destroying removes the callback and then destroys the model, exactly once. */
  lemma DestroyRemovesThenReleases(s: ViewState)
    ensures var d := DestroyStep(s);
      && d.trace == s.trace + [RemoveFrameCallback, DestroyModel]
      && d.registrations == 0 && d.animator == None
      && Count(d.trace, IsDestroyModel) == Count(s.trace, IsDestroyModel) + 1
  {
    CountAppend(s.trace, [RemoveFrameCallback, DestroyModel], IsDestroyModel);
    assert [RemoveFrameCallback, DestroyModel][..1] == [RemoveFrameCallback];
  }

  /** After a destroy nothing is rendered or animated unless the view is resumed. */
  lemma NoFramesAfterDestroy(s: ViewState, inputs: seq<Input>)
    requires forall i :: 0 <= i < |inputs| ==> inputs[i] != Resumed
    ensures var d := DestroyStep(s);
      && Count(Run(d, inputs).trace, IsRender) == Count(d.trace, IsRender)
      && Count(Run(d, inputs).trace, IsAnimation) == Count(d.trace, IsAnimation)
  {
    NoFramesWhileIdle(DestroyStep(s), inputs);
  }

  /** setModel loads the buffer and then calls exactly one of transformToUnitCube (auto-scale on) or clearRootTransform. */
  lemma SetModelScalesOrClears(s: ViewState, loaded: Option<nat>)
    ensures var t := SetModelStep(s, loaded);
      && |t.trace| == |s.trace| + 2
      && t.trace[..|s.trace|] == s.trace
      && t.trace[|s.trace|] == LoadModelGlb
      && (t.trace[|s.trace| + 1] == TransformToUnitCube <==> s.autoScaleEnabled)
      && (t.trace[|s.trace| + 1] == ClearRootTransform <==> !s.autoScaleEnabled)
      && t.registrations == s.registrations
      && (Animates(t) <==> loaded.Some? && loaded.value > 0)
  {
  }

  // ---------------------------------------------------------------------------
  // Animation calls are always part of a frame
  // ---------------------------------------------------------------------------

  /**
   * Every animation call in the trace is for clip 0, is followed by the bone
   * update and by the render of the same frame, and uses that frame's time
   * minus the start time.
   */
  predicate AnimationsInFrames(tr: seq<Event>, startTime: int)
  {
    forall i :: 0 <= i < |tr| && tr[i].ApplyAnimation? ==>
      && i + 2 < |tr|
      && tr[i].index == 0
      && tr[i + 1] == UpdateBoneMatrices
      && tr[i + 2].Render?
      && tr[i].elapsedNanos == Elapsed(startTime, tr[i + 2].frameTimeNanos)
  }

  lemma AppendFrameEvents(s: ViewState, frameTimeNanos: int)
    requires AnimationsInFrames(s.trace, s.startTime)
    ensures AnimationsInFrames(s.trace + FrameEvents(s, frameTimeNanos), s.startTime)
  {
    var tr := s.trace + FrameEvents(s, frameTimeNanos);
    var n := |s.trace|;
    forall i | 0 <= i < |tr| && tr[i].ApplyAnimation?
      ensures i + 2 < |tr| && tr[i].index == 0 && tr[i + 1] == UpdateBoneMatrices && tr[i + 2].Render?
      ensures tr[i].elapsedNanos == Elapsed(s.startTime, tr[i + 2].frameTimeNanos)
    {
      if i < n {
        assert tr[i] == s.trace[i];
      } else {
        assert i == n + 1 && Animates(s);
      }
    }
  }

  lemma {:induction false} FrameStepsKeepAnimationsInFrames(s: ViewState, frameTimeNanos: int, k: nat)
    requires AnimationsInFrames(s.trace, s.startTime)
    ensures var t := FrameSteps(s, frameTimeNanos, k); AnimationsInFrames(t.trace, t.startTime)
    decreases k
  {
    if k > 0 {
      AppendFrameEvents(s, frameTimeNanos);
      FrameStepsKeepAnimationsInFrames(FrameStep(s, frameTimeNanos), frameTimeNanos, k - 1);
    }
  }

  /** Appending calls that are not animation calls keeps the property. */
  lemma AppendNoAnimation(tr: seq<Event>, e: seq<Event>, startTime: int)
    requires AnimationsInFrames(tr, startTime)
    requires forall j :: 0 <= j < |e| ==> !e[j].ApplyAnimation?
    ensures AnimationsInFrames(tr + e, startTime)
  {
    var all := tr + e;
    forall i | 0 <= i < |all| && all[i].ApplyAnimation?
      ensures i + 2 < |all| && all[i] == tr[i] && all[i + 1] == tr[i + 1] && all[i + 2] == tr[i + 2]
    {
      assert i < |tr|;
    }
  }

  /** From construction, every animation call made in any run belongs to a rendered frame of the right time. */
  lemma {:induction false} RunKeepsAnimationsInFrames(s: ViewState, inputs: seq<Input>)
    requires AnimationsInFrames(s.trace, s.startTime)
    ensures var t := Run(s, inputs); AnimationsInFrames(t.trace, t.startTime)
    decreases |inputs|
  {
    if inputs != [] {
      var s1 := Step(s, inputs[0]);
      match inputs[0] {
        case Frame(t) =>
          FrameStepsKeepAnimationsInFrames(s.(registrations := 0), t, s.registrations);
        case Resumed =>
          AppendNoAnimation(s.trace, [PostFrameCallback], s.startTime);
        case Paused =>
          AppendNoAnimation(s.trace, [RemoveFrameCallback], s.startTime);
        case Destroyed =>
          AppendNoAnimation(s.trace, [RemoveFrameCallback, DestroyModel], s.startTime);
        case Load(_) =>
          AppendNoAnimation(s.trace, [LoadModelGlb, if s.autoScaleEnabled then TransformToUnitCube else ClearRootTransform], s.startTime);
      }
      RunKeepsAnimationsInFrames(s1, inputs[1..]);
    }
  }

  lemma CreatedAnimationsInFrames(startTime: int, autoScaleEnabled: bool, inputs: seq<Input>)
    ensures var t := Run(Created(startTime, autoScaleEnabled), inputs);
      AnimationsInFrames(t.trace, startTime)
  {
    RunExtends(Created(startTime, autoScaleEnabled), inputs);
    RunKeepsAnimationsInFrames(Created(startTime, autoScaleEnabled), inputs);
  }
}
