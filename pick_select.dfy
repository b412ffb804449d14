/**
 * The tap-to-select behaviour of MainActivity, as values.
 *
 * The rendering engine's renderable manager is a map from entity id to the
 * tint of each of its primitive slots (its `baseColorFactor`); an entity has
 * a renderable component exactly when it is a key of the map. Next to it is
 * the activity's own state: the selected entity, the status toast and its
 * text, and every info popup window created so far (the last one is the one
 * the activity holds). Each step of the activity is a function from state to
 * state; the class in main_activity.dfy performs the same steps in place.
 */
module PickSelect {
  import opened Common

  /** A primitive's base colour as the activity uses it: opaque white, opaque red, or anything the model was loaded with. */
  datatype Tint = White | Red | Other

  /** An info popup window: its label and whether it is still on screen. */
  datatype Popup = Popup(text: string, showing: bool)

  datatype PickState = PickState(
    slots: map<int, seq<Tint>>,   // renderable manager: entity -> tint per primitive slot
    selected: Option<int>,        // selectedRenderable
    hasToast: bool,               // statusToast != null
    statusText: Option<string>,   // statusText
    toasts: seq<string>,          // every toast shown, oldest first
    popups: seq<Popup>)           // every popup window created, oldest first

  /** The activity as created: nothing selected, no toast, no popup. */
  function Initial(slots: map<int, seq<Tint>>): (s: PickState)
    ensures s.slots == slots && s.selected == None
    ensures !s.hasToast && s.statusText == None
    ensures s.toasts == [] && s.popups == []
  {
    PickState(slots, None, false, None, [], [])
  }

  // ---------------------------------------------------------------------------
  // Screen coordinates
  // ---------------------------------------------------------------------------

  /**
   * The engine coordinates of a tap at (ex, ey) on a surface `height` pixels
   * high: x truncated, y truncated and flipped to a bottom-left origin, the
   * subtraction done in `Int` arithmetic.
   */
  function PickCoordinates(height: int, ex: real, ey: real): (p: (int, int))
    requires IsInt(height)
    ensures IsInt(p.0) && IsInt(p.1)
    ensures p.0 == TruncateToInt(ex)
    ensures (p.1 + TruncateToInt(ey) - height) % 0x1_0000_0000 == 0
    ensures IsInt(height - TruncateToInt(ey)) ==> p.1 + TruncateToInt(ey) == height
  {
    (TruncateToInt(ex), WrapInt(height - TruncateToInt(ey)))
  }

  /** A tap inside the surface lands inside it in engine coordinates, mirrored vertically. */
  lemma PickCoordinatesFlip(height: int, ex: real, ey: real)
    requires 0 <= height <= INT_MAX
    requires 0.0 <= ex <= INT_MAX as real && 0.0 <= ey <= height as real
    ensures var (x, y) := PickCoordinates(height, ex, ey);
      && 0 <= x && x as real <= ex < x as real + 1.0
      && 0 <= y <= height
      && y + TruncateToInt(ey) == height
      && (height as real) - ey <= y as real < (height as real) - ey + 1.0
  {
  }

  // ---------------------------------------------------------------------------
  // Tints
  // ---------------------------------------------------------------------------

  /** `n` primitive slots all set to `t`. */
  function Fill(n: nat, t: Tint): (r: seq<Tint>)
    ensures |r| == n
    ensures forall i :: 0 <= i < n ==> r[i] == t
  {
    seq(n, _ => t)
  }

  /** The number of primitive slots the engine reports for `e`: none for an entity without a renderable component. */
  function PrimitiveCount(slots: map<int, seq<Tint>>, e: int): nat
  {
    if e in slots then |slots[e]| else 0
  }

  /** Every primitive slot of `e` set to `t`; every other entity untouched. */
  function Painted(slots: map<int, seq<Tint>>, e: int, t: Tint): (r: map<int, seq<Tint>>)
    ensures r.Keys == slots.Keys
    ensures e in slots ==> r[e] == Fill(|slots[e]|, t)
    ensures forall f :: f in slots && f != e ==> r[f] == slots[f]
  {
    if e in slots then slots[e := Fill(|slots[e]|, t)] else slots
  }

  /** `e` has a primitive slot tinted red. */
  predicate HasRed(slots: map<int, seq<Tint>>, e: int)
  {
    e in slots && Red in slots[e]
  }

  // ---------------------------------------------------------------------------
  // Status text and popup
  // ---------------------------------------------------------------------------

  const SelectedPrefix: string := "Selected entity ID: "
  const DeselectedPrefix: string := "Deselected entity ID: "
  const PopupPrefix: string := "Selected: "

  function SelectedText(e: int): string { SelectedPrefix + IntToString(e) }
  function DeselectedText(e: int): string { DeselectedPrefix + IntToString(e) }
  function PopupText(e: int): string { PopupPrefix + IntToString(e) }

  /** setStatusText: a new toast is shown unless one exists whose text is already `text`. */
  function StatusAfter(s: PickState, text: string): (r: PickState)
    ensures r.hasToast && r.statusText == Some(text)
    ensures r.toasts == s.toasts || r.toasts == s.toasts + [text]
    ensures r.slots == s.slots && r.selected == s.selected && r.popups == s.popups
  {
    if !s.hasToast || s.statusText != Some(text) then
      s.(hasToast := true, statusText := Some(text), toasts := s.toasts + [text])
    else
      s
  }

  /** No popup window is on screen. */
  predicate NoneShowing(popups: seq<Popup>)
  {
    forall i :: 0 <= i < |popups| ==> !popups[i].showing
  }

  /** At most the last popup window created is on screen. */
  predicate OnlyLastMayShow(popups: seq<Popup>)
  {
    forall i :: 0 <= i < |popups| - 1 ==> !popups[i].showing
  }

  /** `infoPopupWindow?.dismiss()`: the last popup created, if any, leaves the screen. */
  function Dismissed(popups: seq<Popup>): (r: seq<Popup>)
    ensures |r| == |popups|
    ensures forall i :: 0 <= i < |r| ==> r[i].text == popups[i].text
    ensures forall i :: 0 <= i < |r| - 1 ==> r[i] == popups[i]
    ensures r != [] ==> !r[|r| - 1].showing
    ensures OnlyLastMayShow(popups) ==> NoneShowing(r)
  {
    if popups == [] then [] else popups[..|popups| - 1] + [popups[|popups| - 1].(showing := false)]
  }

  /** showInfoPopup: dismiss the current popup, then create and show a new one. */
  function PopupAfter(s: PickState, entityName: string): (r: PickState)
    ensures r.slots == s.slots && r.selected == s.selected
    ensures r.hasToast == s.hasToast && r.statusText == s.statusText && r.toasts == s.toasts
    ensures |r.popups| == |s.popups| + 1
    ensures r.popups[|s.popups|] == Popup(PopupPrefix + entityName, true)
  {
    s.(popups := Dismissed(s.popups) + [Popup(PopupPrefix + entityName, true)])
  }

  // ---------------------------------------------------------------------------
  // The pick callback
  // ---------------------------------------------------------------------------

  /** The slots after tapping `r` when `r` is not the selected entity: the previous selection back to white, `r` red. */
  function SelectSlots(s: PickState, r: int): map<int, seq<Tint>>
  {
    var cleared :=
      if s.selected.Some? && s.selected.value in s.slots then Painted(s.slots, s.selected.value, White)
      else s.slots;
    if r in cleared then Painted(cleared, r, Red) else cleared
  }

  /** Tapping the selected entity `r`: back to white, selection cleared, reported, popup dismissed. */
  function Deselected(s: PickState, r: int): (t: PickState)
    ensures t.selected == None && t.slots.Keys == s.slots.Keys
    ensures t.hasToast && t.statusText == Some(DeselectedText(r))
    ensures |t.popups| == |s.popups| && (t.popups != [] ==> !t.popups[|t.popups| - 1].showing)
  {
    var s1 := StatusAfter(s.(slots := Painted(s.slots, r, White), selected := None), DeselectedText(r));
    s1.(popups := Dismissed(s1.popups))
  }

  /** Tapping an entity `r` that is not selected: tints swapped, `r` selected, reported, popup shown. */
  function Selected(s: PickState, r: int): (t: PickState)
    ensures t.selected == Some(r) && t.slots.Keys == s.slots.Keys
    ensures t.hasToast && t.statusText == Some(SelectedText(r))
    ensures |t.popups| == |s.popups| + 1 && t.popups[|s.popups|] == Popup(PopupText(r), true)
  {
    var s1 := StatusAfter(s.(slots := SelectSlots(s, r), selected := Some(r)), SelectedText(r));
    PopupAfter(s1, IntToString(r))
  }

  /** The completion of a pick whose result names entity `r` (0: nothing was hit). */
  function PickResult(s: PickState, r: int): (t: PickState)
    ensures t.slots.Keys == s.slots.Keys
    ensures r != 0 ==> t.selected == (if s.selected == Some(r) then None else Some(r))
    ensures r != 0 ==> t.statusText == Some(if s.selected == Some(r) then DeselectedText(r) else SelectedText(r))
  {
    if r == 0 then s
    else if s.selected == Some(r) then Deselected(s, r)
    else Selected(s, r)
  }

  /**
   * A touch outside the info popup window: the window is created outside-touchable
   * with a background, so it dismisses itself. The selection stays as it is.
   */
  function TouchedOutside(s: PickState): (t: PickState)
    ensures t.slots == s.slots && t.selected == s.selected
    ensures t.hasToast == s.hasToast && t.statusText == s.statusText && t.toasts == s.toasts
    ensures |t.popups| == |s.popups| && (t.popups != [] ==> !t.popups[|t.popups| - 1].showing)
  {
    s.(popups := Dismissed(s.popups))
  }

  /** What reaches the activity's state: a completed pick, or a touch outside the popup. */
  datatype Touch = Picked(renderable: int) | Outside

  function AfterTouch(s: PickState, x: Touch): PickState
  {
    match x
    case Picked(r) => PickResult(s, r)
    case Outside => TouchedOutside(s)
  }

  /** The effect of a sequence of touches, in order. */
  function AfterTouches(s: PickState, xs: seq<Touch>): PickState
    decreases |xs|
  {
    if xs == [] then s else AfterTouches(AfterTouch(s, xs[0]), xs[1..])
  }

  // ---------------------------------------------------------------------------
  // What one pick does
  // ---------------------------------------------------------------------------

  /** A pick that hits nothing changes no tint, no selection, no status text and no popup. */
  lemma NothingPickedIsNoOp(s: PickState)
    ensures PickResult(s, 0) == s
  {
  }

  /** Tapping the selected entity paints all its slots white, clears the selection, reports it and closes the popup. */
  lemma TapSelectedDeselects(s: PickState, r: int)
    requires r != 0 && s.selected == Some(r)
    requires OnlyLastMayShow(s.popups)
    ensures var t := PickResult(s, r);
      && t.selected == None
      && t.slots.Keys == s.slots.Keys
      && (r in s.slots ==> t.slots[r] == Fill(|s.slots[r]|, White))
      && (forall f :: f in s.slots && f != r ==> t.slots[f] == s.slots[f])
      && t.statusText == Some(DeselectedText(r))
      && |t.popups| == |s.popups| && NoneShowing(t.popups)
  {
  }

  /**
   * Tapping another entity paints the previous selection white (when it
   * still has a renderable component) and the tapped one red (when it has
   * one), selects it either way, reports it and shows exactly one popup naming it.
   */
  lemma TapOtherSelects(s: PickState, r: int)
    requires r != 0 && s.selected != Some(r)
    requires OnlyLastMayShow(s.popups)
    ensures var t := PickResult(s, r);
      && t.selected == Some(r)
      && t.slots.Keys == s.slots.Keys
      && (r in s.slots ==> t.slots[r] == Fill(|s.slots[r]|, Red))
      && (s.selected.Some? && s.selected.value in s.slots ==>
            t.slots[s.selected.value] == Fill(|s.slots[s.selected.value]|, White))
      && (forall f :: f in s.slots && f != r && s.selected != Some(f) ==> t.slots[f] == s.slots[f])
      && t.statusText == Some(SelectedText(r))
      && |t.popups| == |s.popups| + 1
      && t.popups[|s.popups|] == Popup(PopupText(r), true)
      && OnlyLastMayShow(t.popups)
  {
  }

  /** Only the tapped entity and the previously selected one can have their tints written. */
  lemma PickTouchesOnlyTwoEntities(s: PickState, r: int, f: int)
    requires f in s.slots && f != r && s.selected != Some(f)
    ensures var t := PickResult(s, r); f in t.slots && t.slots[f] == s.slots[f]
  {
  }

  /**
   * A toast with the text is shown exactly when there is no toast yet or the
   * status says something else; otherwise nothing changes, so repeating a
   * status text does nothing more.
   */
  lemma StatusTextIdempotent(s: PickState, text: string)
    ensures (!s.hasToast || s.statusText != Some(text)) ==> StatusAfter(s, text).toasts == s.toasts + [text]
    ensures s.hasToast && s.statusText == Some(text) ==> StatusAfter(s, text) == s
    ensures StatusAfter(StatusAfter(s, text), text) == StatusAfter(s, text)
  {
  }

  /** Showing a popup leaves at most one on screen: the new one. */
  lemma PopupReplaces(s: PickState, entityName: string)
    ensures var t := PopupAfter(s, entityName);
      && (forall i :: 0 <= i < |s.popups| ==> t.popups[i].text == s.popups[i].text)
      && (OnlyLastMayShow(s.popups) ==> OnlyLastMayShow(t.popups) && NoneShowing(t.popups[..|s.popups|]))
  {
  }

  // ---------------------------------------------------------------------------
  // The invariant over any sequence of picks
  // ---------------------------------------------------------------------------

  /** A text starting with "Deselected entity ID: ". */
  predicate IsDeselectedText(x: string)
  {
    |DeselectedPrefix| <= |x| && x[..|DeselectedPrefix|] == DeselectedPrefix
  }

  /**
   * The state the activity keeps across picks: only the selected entity can
   * show red, and all of its slots do; at most the last popup created is on
   * screen, and only while something is selected; the last popup created
   * names the selection (a touch outside it may have closed it already);
   * the status text reports the last transition.
   */
  predicate Inv(s: PickState)
  {
    && (forall e :: e in s.slots && s.selected != Some(e) ==> Red !in s.slots[e])
    && (s.selected.Some? && s.selected.value in s.slots ==>
          s.slots[s.selected.value] == Fill(|s.slots[s.selected.value]|, Red))
    && OnlyLastMayShow(s.popups)
    && (|s.popups| > 0 && s.popups[|s.popups| - 1].showing ==> s.selected.Some?)
    && (s.selected.Some? ==> |s.popups| > 0 && s.popups[|s.popups| - 1].text == PopupText(s.selected.value))
    && s.hasToast == s.statusText.Some?
    && (s.selected.Some? ==> s.statusText == Some(SelectedText(s.selected.value)))
    && (s.selected.None? && s.statusText.Some? ==> IsDeselectedText(s.statusText.value))
  }

  /** A freshly created activity over a model with no red primitive satisfies the invariant. */
  lemma InitialInv(slots: map<int, seq<Tint>>)
    requires forall e :: e in slots ==> Red !in slots[e]
    ensures Inv(Initial(slots))
  {
  }

  /** Every pick preserves the invariant and the set of entities. */
  lemma PickPreservesInv(s: PickState, r: int)
    requires Inv(s)
    ensures Inv(PickResult(s, r))
    ensures PickResult(s, r).slots.Keys == s.slots.Keys
  {
    if r != 0 && s.selected == Some(r) {
      var t := PickResult(s, r);
      forall e | e in t.slots && t.selected != Some(e)
        ensures Red !in t.slots[e]
      {
        if e == r {
          assert t.slots[e] == Fill(|s.slots[e]|, White);
        }
      }
    } else if r != 0 {
      var t := PickResult(s, r);
      var cleared :=
        if s.selected.Some? && s.selected.value in s.slots then Painted(s.slots, s.selected.value, White)
        else s.slots;
      assert forall e :: e in cleared ==> Red !in cleared[e];
      forall e | e in t.slots && t.selected != Some(e)
        ensures Red !in t.slots[e]
      {
        assert t.slots[e] == cleared[e];
      }
    }
  }

  /** A touch outside the popup closes it and keeps the invariant; the selection stays. */
  lemma OutsideTouchPreservesInv(s: PickState)
    requires Inv(s)
    ensures Inv(TouchedOutside(s))
    ensures NoneShowing(TouchedOutside(s).popups)
  {
  }

  /** Under the invariant nothing is on screen while nothing is selected. */
  lemma NoPopupWithoutSelection(s: PickState)
    requires Inv(s) && s.selected == None
    ensures NoneShowing(s.popups)
  {
    if s.popups != [] {
      assert !s.popups[|s.popups| - 1].showing;
    }
  }

  /** The invariant holds after any sequence of touches, and no entity appears or disappears. */
  lemma {:induction false} TouchesPreserveInv(s: PickState, xs: seq<Touch>)
    requires Inv(s)
    ensures Inv(AfterTouches(s, xs))
    ensures AfterTouches(s, xs).slots.Keys == s.slots.Keys
    decreases |xs|
  {
    if xs != [] {
      match xs[0] {
        case Picked(r) => PickPreservesInv(s, r);
        case Outside => OutsideTouchPreservesInv(s);
      }
      TouchesPreserveInv(AfterTouch(s, xs[0]), xs[1..]);
    }
  }

  /** Under the invariant a red entity is the selected one; so at most one entity is red. */
  lemma AtMostOneHighlighted(s: PickState, a: int, b: int)
    requires Inv(s)
    requires HasRed(s.slots, a) && HasRed(s.slots, b)
    ensures a == b && s.selected == Some(a)
  {
  }

  /** From a model with no red, after any sequence of touches at most one entity is red and it is the selection. */
  lemma TapsKeepSingleHighlight(slots: map<int, seq<Tint>>, xs: seq<Touch>, a: int, b: int)
    requires forall e :: e in slots ==> Red !in slots[e]
    requires var t := AfterTouches(Initial(slots), xs); HasRed(t.slots, a) && HasRed(t.slots, b)
    ensures var t := AfterTouches(Initial(slots), xs); a == b && t.selected == Some(a)
  {
    InitialInv(slots);
    TouchesPreserveInv(Initial(slots), xs);
    AtMostOneHighlighted(AfterTouches(Initial(slots), xs), a, b);
  }

  /** Under the invariant every pick that hits something shows exactly one new toast, with the transition's text. */
  lemma EveryHitShowsOneToast(s: PickState, r: int)
    requires Inv(s) && r != 0
    ensures var t := PickResult(s, r);
      t.toasts == s.toasts + [if s.selected == Some(r) then DeselectedText(r) else SelectedText(r)]
  {
    assert SelectedText(r)[0] == 'S';
    if s.selected == Some(r) {
      assert DeselectedText(r)[0] == 'D';
    } else if s.selected.Some? {
      var p := s.selected.value;
      if SelectedText(p) == SelectedText(r) {
        SamePrefixInjective(SelectedPrefix, IntToString(p), IntToString(r));
        IntToStringInjective(p, r);
      }
    } else if s.statusText.Some? {
      assert s.statusText.value[0] == 'D';
    }
  }

  /** Selecting an entity and tapping it again leaves nothing red and nothing selected. */
  lemma SelectThenDeselect(s: PickState, r: int)
    requires Inv(s) && r != 0 && s.selected == None
    ensures var t := PickResult(PickResult(s, r), r);
      && t.selected == None
      && t.slots.Keys == s.slots.Keys
      && (forall e :: e in t.slots ==> Red !in t.slots[e])
      && (r in s.slots ==> t.slots[r] == Fill(|s.slots[r]|, White))
      && NoneShowing(t.popups)
  {
    var t1 := PickResult(s, r);
    PickPreservesInv(s, r);
    TapOtherSelects(s, r);
    PickPreservesInv(t1, r);
    TapSelectedDeselects(t1, r);
  }
}
