# glTF model viewer: frame loop and tap-to-select, modelled in Dafny

The Android application loads a binary glTF model into the Filament engine's
`ModelViewer`, renders it on every display refresh and lets the user tap a
mesh to highlight it. Almost everything is done by the engine. This project
models the two parts that make their own sequencing and state decisions:

* **Tap-to-select** (`MainActivity`). A tap is converted to engine
  coordinates: x is truncated, and y is truncated and flipped so that the
  origin is at the bottom of the surface. The engine's pick result then
  toggles a single selected entity. Tapping the selected entity paints every
  primitive slot of that entity white, clears the selection, reports
  "Deselected entity ID: r" and dismisses the info popup. Tapping another
  entity first paints the previous selection white, but only if that entity
  still has a renderable component. It then paints the tapped entity red if
  it has one, selects it, reports "Selected entity ID: r" and replaces the
  popup. A result of entity 0 means nothing was hit and changes nothing. A
  status toast is shown only when there is none yet or its text changes.
  Showing a popup dismisses the one before it. The popup window is created
  outside-touchable with a background, so a touch outside it closes it
  while the selection stays.
* **Frame loop and lifecycle binding** (`CustomView`). Every `doFrame` first
  re-posts itself to the Choreographer. It then applies animation clip 0 at
  `frameTimeNanos - startTime`, followed by the bone update, but only when
  the model has an animator with at least one animation. Last, it renders the
  frame once. Activity resume posts the callback, pause removes it, and
  destroy removes it and then destroys the model. `setModel` loads the
  buffer and then calls exactly one of `transformToUnitCube` or
  `clearRootTransform`, depending on the auto-scale option.

Both parts have two layers:

* A value layer (`PickSelect`, `FrameLoop`) holds one state-to-state
  function per step of the source and the lemmas about any sequence of steps.
* An object layer (`Activity.MainActivity`, `ViewBinding.CustomView`) has
  fields that the methods update in place, as the Kotlin does. The per-slot
  `for` loops of the pick callback are kept as loops. Each method is proved
  to produce exactly the state the matching function computes.

The engine's renderable manager is a map from entity id to one tint per
primitive slot: `White`, `Red`, or `Other` for a colour the model was loaded
with. An entity has a renderable component exactly when it is a key of the
map. The Choreographer's queue is the number of entries of the view's frame
callback:

* posting adds one entry, with no check for an existing one;
* removing takes out every entry;
* a display refresh runs each queued entry once, and each entry re-posts
  itself.

Every call the view makes on the Choreographer or the `ModelViewer` is
appended to a trace of events.

Main results:

* From a scene with no red primitive, after any sequence of taps:
  * at most one entity has a slot the controller painted red, and that
    entity is the selection (each slot is taken to own its material
    instance; see `PickSelect.Painted` under "## Left out");
  * at most one popup is on screen, the last one created, and only while
    something is selected; the last popup created names the selection,
    though a touch outside it may already have closed it;
  * every tap that hits something shows exactly one new toast. This rests on
    the decimal rendering of an `Int` being readable back into the same
    number, hence injective.
* Once the frame callback is removed (pause or destroy), no frame is
  rendered or animated until a resume posts it again.
* A refresh renders once per queued entry. Because the view posts the
  callback at construction and again on the first resume, every refresh
  renders twice until the first pause. After a pause and a resume, it
  renders once.
* Every animation call is for clip 0 and is followed by the bone update and
  by the render of the same frame. Its elapsed time is that frame's time
  minus the fixed start time. That time is non-negative and non-decreasing
  for clock readings at or after the start time.

Points worth noting about the code:

* The frame loop is armed at construction (`CustomView.kt:78`).
* Posting is not idempotent, so a resume on top of the construction-time
  post doubles the frames.
* `destroyModel` runs once per destroy notification (`CustomView.kt:142`
  and `CustomView.kt:166`).

In the Kotlin source, `modelViewer`, `surfaceView` and `choreographer` of
`MainActivity` are `lateinit` and never assigned, and the tap detector is
never attached to a view. The tap handler therefore never runs in the
application as written. It is modelled as written. Likewise, `CustomView`'s
`@OnLifecycleEvent` handlers are never registered with a lifecycle owner.
They are modelled too, and they do the same as the activity callbacks.

Clock readings (`System.nanoTime()`), the frame time, the screen size and
touch position, the engine's pick result and the number of animations of a
loaded model are parameters.

## Model

| member | source | states |
|---|---|---|
| `Common.TruncateToInt` | app/src/main/java/com/example/gltfmodelviewer/MainActivity.kt:147-148 | `Float.toInt()` rounds toward zero and stays within one unit of the value: never above a non-negative value, never below a non-positive one. Out-of-range values saturate at the `Int` bounds. |
| `Common.WrapInt` | app/src/main/java/com/example/gltfmodelviewer/MainActivity.kt:148 | `Int` subtraction gives a value in the `Int` range that is congruent to the exact difference modulo 2^32. It equals the exact difference when that difference is in range. |
| `Common.WrapLong` | app/src/main/java/com/example/gltfmodelviewer/CustomView.kt:270 | `Long` subtraction gives a value in the `Long` range that is congruent to the exact difference modulo 2^64. It equals the exact difference when that difference is in range. |
| `Common.NatToString` | app/src/main/java/com/example/gltfmodelviewer/MainActivity.kt:206 | The decimal digits of a natural number, without a leading zero: at least one digit, exactly one below 10, and the digits denote the number (`DecimalValue` of the text is the number). |
| `Common.IntToString` | app/src/main/java/com/example/gltfmodelviewer/MainActivity.kt:173 | The decimal text of an id: the digits of the number, preceded by `-` exactly when it is negative. `ParseInt` reads the text back to the same number. |
| `Common.IntToStringInjective` | app/src/main/java/com/example/gltfmodelviewer/MainActivity.kt:173 | Distinct Ints have distinct decimal texts, because each text reads back to its own number. With `SamePrefixInjective` this makes distinct ids give distinct status and popup texts. |
| `PickSelect.PickCoordinates` | app/src/main/java/com/example/gltfmodelviewer/MainActivity.kt:147-148 | Both tap coordinates are Ints, and x is `Float.toInt()` of the touch x. The engine y plus the truncated touch y is congruent to the surface height modulo 2^32, and equals it when the `Int` subtraction does not overflow. |
| `PickSelect.PickCoordinatesFlip` | app/src/main/java/com/example/gltfmodelviewer/MainActivity.kt:147-148 | For a tap inside a surface of height h, the engine x is the truncated touch x. The engine y lies in [0, h], equals h minus the truncated touch y, and is within one unit of h - y. |
| `PickSelect.Initial` | app/src/main/java/com/example/gltfmodelviewer/MainActivity.kt:38-49 | The activity starts with nothing selected, no status toast and no status text (both `null`), no toast shown and no popup created, over the scene's tints. |
| `PickSelect.Painted` | app/src/main/java/com/example/gltfmodelviewer/MainActivity.kt:164-170 | Painting an entity sets every one of its primitive slots to the colour and keeps the slot count. No other entity changes, and no entity is added or removed. |
| `PickSelect.NothingPickedIsNoOp` | app/src/main/java/com/example/gltfmodelviewer/MainActivity.kt:151-154 | A result naming entity 0 leaves tints, selection, status and popups exactly as they were. |
| `PickSelect.TapSelectedDeselects` | app/src/main/java/com/example/gltfmodelviewer/MainActivity.kt:162-174 | Tapping the selected entity turns every one of its slots white and clears the selection. It sets the status to "Deselected entity ID: r" and leaves no popup showing. All other entities are unchanged. |
| `PickSelect.TapOtherSelects` | app/src/main/java/com/example/gltfmodelviewer/MainActivity.kt:175-208 | Tapping another entity turns the previous selection white if it has a component, and the tapped entity red if it has one. It selects the tapped entity either way and sets the status to "Selected entity ID: r". It appends one showing popup "Selected: r" as the only one on screen. |
| `PickSelect.PickTouchesOnlyTwoEntities` | app/src/main/java/com/example/gltfmodelviewer/MainActivity.kt:162-203 | A pick writes the slots of only the tapped entity and the previous selection. Every other entity's tints are unchanged. |
| `PickSelect.StatusAfter` | app/src/main/java/com/example/gltfmodelviewer/MainActivity.kt:96-104 | After setStatusText there is a toast and the status is the text. At most that one toast is added, and tints, selection and popups are unchanged. |
| `PickSelect.StatusTextIdempotent` | app/src/main/java/com/example/gltfmodelviewer/MainActivity.kt:96-104 | When no toast exists or the status says something else, a toast with the text is appended. When a toast exists whose text is the same, the state is unchanged. So setting the same text twice is the same as once. |
| `PickSelect.Dismissed` | app/src/main/java/com/example/gltfmodelviewer/MainActivity.kt:174 | Dismissing takes the last popup off screen and changes no other window and no label. If at most the last was showing, none is afterwards. |
| `PickSelect.PopupAfter` | app/src/main/java/com/example/gltfmodelviewer/MainActivity.kt:214-230 | showInfoPopup appends one showing window labelled "Selected: name" and changes nothing but the popups. |
| `PickSelect.PopupReplaces` | app/src/main/java/com/example/gltfmodelviewer/MainActivity.kt:214-230 | Every earlier window keeps its label. If at most the last window was showing before, afterwards none of the earlier ones is and only the new one may be. |
| `PickSelect.Deselected` | app/src/main/java/com/example/gltfmodelviewer/MainActivity.kt:162-174 | The deselect branch leaves nothing selected and the entity set unchanged. It sets the status to "Deselected entity ID: r" and the current popup is not showing. |
| `PickSelect.Selected` | app/src/main/java/com/example/gltfmodelviewer/MainActivity.kt:175-208 | The select branch selects r and keeps the entity set. It sets the status to "Selected entity ID: r" and appends one showing popup "Selected: r". |
| `PickSelect.PickResult` | app/src/main/java/com/example/gltfmodelviewer/MainActivity.kt:150-209 | A pick keeps the entity set. A hit toggles the selection: the selected entity is deselected, any other becomes selected, and the status says which. |
| `PickSelect.TouchedOutside` | app/src/main/java/com/example/gltfmodelviewer/MainActivity.kt:227-228 | A touch outside the outside-touchable popup takes it off screen. Tints, selection, status and toasts are unchanged. |
| `PickSelect.InitialInv` | app/src/main/java/com/example/gltfmodelviewer/MainActivity.kt:38-49 | A freshly created activity over a scene without red primitives satisfies the selection invariant. |
| `PickSelect.PickPreservesInv` | app/src/main/java/com/example/gltfmodelviewer/MainActivity.kt:150-209 | Each pick keeps the invariant and the set of entities with a component. Invariant: only the selection may be red, and all its slots are. At most the last popup is on screen, only while something is selected, and the last popup names the selection. The status reports the last transition. |
| `PickSelect.OutsideTouchPreservesInv` | app/src/main/java/com/example/gltfmodelviewer/MainActivity.kt:227-228 | A touch outside the popup keeps the invariant and leaves no popup on screen. |
| `PickSelect.NoPopupWithoutSelection` | app/src/main/java/com/example/gltfmodelviewer/MainActivity.kt:172-174 | Under the invariant no popup is on screen while nothing is selected. |
| `PickSelect.TouchesPreserveInv` | app/src/main/java/com/example/gltfmodelviewer/MainActivity.kt:150-228 | The invariant and the entity set hold after any sequence of pick results and outside touches. |
| `PickSelect.AtMostOneHighlighted` | app/src/main/java/com/example/gltfmodelviewer/MainActivity.kt:162-203 | Under the invariant, two entities with red slots are the same entity, and it is the selection (slots as modelled, see "## Left out"). |
| `PickSelect.TapsKeepSingleHighlight` | app/src/main/java/com/example/gltfmodelviewer/MainActivity.kt:162-203 | Start from a scene without red primitives. After any sequence of taps and outside touches, at most one entity has a red slot, and it is the selected one (slots as modelled, see "## Left out"). |
| `PickSelect.EveryHitShowsOneToast` | app/src/main/java/com/example/gltfmodelviewer/MainActivity.kt:173-206 | Under the invariant, every pick that hits an entity shows exactly one new toast. Its text is the deselect or select message for that entity. |
| `PickSelect.SelectThenDeselect` | app/src/main/java/com/example/gltfmodelviewer/MainActivity.kt:162-207 | Start with nothing selected and tap an entity twice. Afterwards nothing is selected, no entity is red, the entity is all white and no popup is showing. |
| `Activity.MainActivity.constructor` | app/src/main/java/com/example/gltfmodelviewer/MainActivity.kt:38-49 | The object starts in the initial state over the given scene. |
| `Activity.MainActivity.GetPrimitiveCount` | app/src/main/java/com/example/gltfmodelviewer/MainActivity.kt:164-165 | The primitive count is the entity's number of slots, or 0 for an entity without a renderable component. |
| `Activity.MainActivity.SetBaseColor` | app/src/main/java/com/example/gltfmodelviewer/MainActivity.kt:164-170 | The per-slot loop leaves the renderable manager equal to `Painted` of the old one, and no other field changes. |
| `Activity.MainActivity.SetStatusText` | app/src/main/java/com/example/gltfmodelviewer/MainActivity.kt:96-104 | The new state is `StatusAfter` of the old: a toast is shown and the text stored only if no toast exists or the text differs. |
| `Activity.MainActivity.DismissInfoPopup` | app/src/main/java/com/example/gltfmodelviewer/MainActivity.kt:174 | Only the current popup window is taken off screen, and nothing else changes. The selection invariant is preserved, which also covers the window closing itself on an outside touch. |
| `Activity.MainActivity.ShowInfoPopup` | app/src/main/java/com/example/gltfmodelviewer/MainActivity.kt:214-230 | The new state is `PopupAfter` of the old. If at most the last popup was showing before, the same holds after. |
| `Activity.MainActivity.OnPickResult` | app/src/main/java/com/example/gltfmodelviewer/MainActivity.kt:150-209 | The new state is `PickResult` of the old, and the selection invariant is preserved. |
| `Activity.MainActivity.Deselect` | app/src/main/java/com/example/gltfmodelviewer/MainActivity.kt:162-174 | The deselect branch produces exactly the state `Deselected` describes. |
| `Activity.MainActivity.Select` | app/src/main/java/com/example/gltfmodelviewer/MainActivity.kt:175-208 | The select branch produces exactly the state `Selected` describes. |
| `FrameLoop.Created` | app/src/main/java/com/example/gltfmodelviewer/CustomView.kt:66-78 | After construction, the callback is queued once and posting is the only call made. The start time is the clock reading, the auto-scale flag is the option's value, and no model is loaded. |
| `FrameLoop.Elapsed` | app/src/main/java/com/example/gltfmodelviewer/CustomView.kt:270 | The elapsed time is a `Long`, congruent to frame time minus start time modulo 2^64, and equal to it when that difference is in range. |
| `FrameLoop.FrameStep` | app/src/main/java/com/example/gltfmodelviewer/CustomView.kt:265-277 | doFrame adds one queue entry, extends the trace and ends it with the render of its frame time. The start time, the animator and the auto-scale flag are unchanged. |
| `FrameLoop.FrameOrder` | app/src/main/java/com/example/gltfmodelviewer/CustomView.kt:265-277 | doFrame re-posts first and adds one queue entry. It makes no other call than those listed here: four calls when animating, two otherwise. It renders exactly once, last, with its own frame time. It makes the animation calls (clip 0 at the elapsed time, then the bone update) exactly when an animator with animations exists. |
| `FrameLoop.ElapsedMonotone` | app/src/main/java/com/example/gltfmodelviewer/CustomView.kt:264-270 | For non-negative clock readings with start ≤ t1 ≤ t2, the elapsed time is exactly t1 - start. It is non-negative and non-decreasing. |
| `FrameLoop.ElapsedCanWrap` | app/src/main/java/com/example/gltfmodelviewer/CustomView.kt:270 | Without that assumption, the `Long` subtraction wraps: two concrete readings give a negative elapsed time. |
| `FrameLoop.FrameStepsCount` | app/src/main/java/com/example/gltfmodelviewer/CustomView.kt:265-276 | k runs of doFrame add k queue entries and exactly k renders. The start time and the animator stay unchanged. |
| `FrameLoop.VsyncRendersPerRegistration` | app/src/main/java/com/example/gltfmodelviewer/CustomView.kt:265-276 | A display refresh renders once per queued entry and leaves as many entries queued. With no entry it changes nothing. |
| `FrameLoop.ResumeStep` | app/src/main/java/com/example/gltfmodelviewer/CustomView.kt:121-124 | A resume adds one queue entry and one post call. Start time, animator and auto-scale flag are unchanged. |
| `FrameLoop.PauseStep` | app/src/main/java/com/example/gltfmodelviewer/CustomView.kt:126-129 | A pause empties the queue and records one remove call. Start time, animator and auto-scale flag are unchanged. |
| `FrameLoop.DestroyStep` | app/src/main/java/com/example/gltfmodelviewer/CustomView.kt:139-143 | A destroy empties the queue and drops the animator, recording the remove and then the model destruction. Start time and auto-scale flag are unchanged. |
| `FrameLoop.CreatedThenResumedRendersTwice` | app/src/main/java/com/example/gltfmodelviewer/CustomView.kt:121-124 | Construction posts the callback and the first resume posts it again, so two entries are queued and one refresh renders twice. |
| `FrameLoop.PauseThenResume` | app/src/main/java/com/example/gltfmodelviewer/CustomView.kt:121-129 | A pause followed by a resume leaves exactly one entry queued, whatever was queued before, so a refresh then renders once. |
| `FrameLoop.RunExtends` | app/src/main/java/com/example/gltfmodelviewer/CustomView.kt:264 | No sequence of events changes the start time, and the trace only grows. |
| `FrameLoop.NoFramesWhileIdle` | app/src/main/java/com/example/gltfmodelviewer/CustomView.kt:126-129 | With no entry queued and no resume, any sequence of refreshes, pauses, destroys and loads renders nothing, animates nothing and queues nothing. |
| `FrameLoop.DestroyRemovesThenReleases` | app/src/main/java/com/example/gltfmodelviewer/CustomView.kt:139-143 | Destroy removes the callback, then destroys the model. It empties the queue, drops the animator and adds exactly one model destruction. |
| `FrameLoop.NoFramesAfterDestroy` | app/src/main/java/com/example/gltfmodelviewer/CustomView.kt:161-167 | After a destroy, nothing is rendered or animated unless a resume posts the callback again. |
| `FrameLoop.SetModelStep` | app/src/main/java/com/example/gltfmodelviewer/CustomView.kt:210-217 | setModel installs the loaded animator, leaves the queue, start time and flag unchanged, and adds two calls to the trace, the load first. |
| `FrameLoop.SetModelScalesOrClears` | app/src/main/java/com/example/gltfmodelviewer/CustomView.kt:210-217 | setModel loads first. It then calls `transformToUnitCube` exactly when auto-scale is on and `clearRootTransform` exactly when it is off. The new model animates exactly when it has an animation. |
| `FrameLoop.RunKeepsAnimationsInFrames` | app/src/main/java/com/example/gltfmodelviewer/CustomView.kt:268-276 | Every sequence of events keeps this property of the trace: each animation call is for clip 0 and is followed by the bone update and by the render of the same frame. Its elapsed time is that frame's time minus the start time. |
| `FrameLoop.CreatedAnimationsInFrames` | app/src/main/java/com/example/gltfmodelviewer/CustomView.kt:263-278 | From construction, that property holds after any sequence of events. |
| `ViewBinding.CustomView.constructor` | app/src/main/java/com/example/gltfmodelviewer/CustomView.kt:66-78 | The object starts in the `Created` state. |
| `ViewBinding.CustomView.PostFrameCallback` | app/src/main/java/com/example/gltfmodelviewer/CustomView.kt:78 | Posting adds one queue entry, even if one is already queued. |
| `ViewBinding.CustomView.RemoveFrameCallback` | app/src/main/java/com/example/gltfmodelviewer/CustomView.kt:128 | Removing empties the queue of every entry of the callback. |
| `ViewBinding.CustomView.DestroyModel` | app/src/main/java/com/example/gltfmodelviewer/CustomView.kt:142 | Destroying the model drops the animator and leaves the queue alone. |
| `ViewBinding.CustomView.DoFrame` | app/src/main/java/com/example/gltfmodelviewer/CustomView.kt:265-277 | The new state is `FrameStep` of the old: re-post, the conditional animation of clip 0, then render. |
| `ViewBinding.CustomView.OnActivityResumed` | app/src/main/java/com/example/gltfmodelviewer/CustomView.kt:121-124 | The new state is `ResumeStep` of the old: one more queue entry. |
| `ViewBinding.CustomView.OnActivityPaused` | app/src/main/java/com/example/gltfmodelviewer/CustomView.kt:126-129 | The new state is `PauseStep` of the old: the queue is empty. |
| `ViewBinding.CustomView.OnActivityDestroyed` | app/src/main/java/com/example/gltfmodelviewer/CustomView.kt:139-143 | The new state is `DestroyStep` of the old: the callback is removed, then the model destroyed. |
| `ViewBinding.CustomView.OnResume` | app/src/main/java/com/example/gltfmodelviewer/CustomView.kt:147-152 | The same step as the activity's resume. |
| `ViewBinding.CustomView.OnPause` | app/src/main/java/com/example/gltfmodelviewer/CustomView.kt:154-159 | The same step as the activity's pause. |
| `ViewBinding.CustomView.OnDestroy` | app/src/main/java/com/example/gltfmodelviewer/CustomView.kt:161-167 | The same step as the activity's destroy. |
| `ViewBinding.CustomView.SetModel` | app/src/main/java/com/example/gltfmodelviewer/CustomView.kt:210-217 | The new state is `SetModelStep` of the old: load, then scale or reset the root. |

## Left out

- Asset reading in `onCreate` and `readAsset`: byte-stream I/O from the bundled assets. The loaded model appears only as its animator's animation count.
- `setLights`: KTX1 texture decoding by the engine and a floating-point light intensity.
- `setViewOptions`: fixed configuration of the engine's quality, anti-aliasing, ambient-occlusion and bloom options, with no decisions.
- The engine itself (`loadModelGlb`, `pick`, `render`, the renderable manager's storage, `setParameter`): closed library code. It appears only as the tint map, the animator and the trace of calls made on it.
- The conversion of elapsed nanoseconds to float seconds: floating point. The animation call carries the integer nanosecond difference.
- Floating-point touch coordinates: a touch position is its exact real value, and NaN is not modelled.
- Threads: the Choreographer, the pick's handler delivery and `runOnUiThread`. Each callback is one atomic step. A pick result that arrives after a later tap is applied as it comes, and the order of such results is not modelled.
- The Choreographer's dispatch is modelled only as "each queued entry runs once per refresh". Its timing and its other callback types are not modelled.
- Toast and popup rendering, layout inflation, `FLAG_KEEP_SCREEN_ON`, `onBackPressed` and logging. A toast is its text, and a popup is its label and whether it is showing.
- Callbacks that only log: the surface callbacks (created, changed, destroyed), the activity's created, started, stopped and save-state callbacks, `MainActivity`'s `onResume`, `onPause` and `onDestroy`, and `CustomViewLifecycleObserver`.
- `MainActivity.FrameCallback`: that activity never posts it. It is the same code as the `CustomView` frame callback that is modelled.
- The scale gesture detector and `scaleFactor`, which the activity declares but never uses.
- Material colours other than the two the activity writes are merged into one `Other` tint. The four float components are not kept.
- `Activity.MainActivity.Deselect`: the source does not check `hasComponent` before painting white in this branch. The model gives an entity without a renderable component zero primitive slots, so nothing is written. What the engine does with an invalid instance is not modelled.
- `ViewBinding.CustomView.DoFrame` runs after the Choreographer has taken the entry out of its queue. The object has no method for that removal; `FrameLoop.Vsync` models it on values.
- An outside touch is modelled on values only (`PickSelect.TouchedOutside`). The object's `DismissInfoPopup` performs the same change, and its contract covers it.
- `PickSelect.Painted`: each primitive slot is modelled as owning its material instance, so painting writes only that entity's slots. The engine's glTF loader can give one material instance to every primitive that uses the same glTF material, including primitives of other entities. `setParameter` on a shared instance then also recolours those other entities. The at-most-one-red results (`AtMostOneHighlighted`, `TapsKeepSingleHighlight`, the invariant) describe the slots the controller writes, not the colours the engine draws when instances are shared.
- `FrameLoop.ElapsedMonotone`: stated for clock readings that are non-negative `Long`s, as readings of the monotonic clock since boot are. For other readings the subtraction can wrap (`FrameLoop.ElapsedCanWrap`).
