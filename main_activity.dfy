/**
 * MainActivity's tap handling as the activity performs it: fields updated in
 * place, and a loop over the primitive slots of an entity writing one
 * material parameter at a time. Each method is proved to leave the activity
 * in the state the corresponding step of PickSelect computes, so every
 * property proved there holds of the object.
 */
module Activity {
  import opened Common
  import opened PickSelect

  class MainActivity {
    var slots: map<int, seq<Tint>>       // the engine's renderable manager, one tint per primitive slot
    var selectedRenderable: Option<int>
    var hasStatusToast: bool             // statusToast != null
    var statusText: Option<string>
    var toasts: seq<string>              // every toast shown, oldest first
    var popups: seq<Popup>               // every popup window created; the last is infoPopupWindow

    /** The activity's state as a value. */
    function Snapshot(): (s: PickState)
      reads this
    {
      PickState(slots, selectedRenderable, hasStatusToast, statusText, toasts, popups)
    }

    /** The activity over a loaded scene, before any tap. */
    constructor (scene: map<int, seq<Tint>>)
      ensures Snapshot() == Initial(scene)
    {
      slots := scene;
      selectedRenderable := None;
      hasStatusToast := false;
      statusText := None;
      toasts := [];
      popups := [];
    }

    /** The number of primitive slots the engine reports for `e` (none without a renderable component). */
    function GetPrimitiveCount(e: int): (n: nat)
      reads this
      ensures e in slots ==> n == |slots[e]|
      ensures e !in slots ==> n == 0
    {
      PrimitiveCount(slots, e)
    }

    /** Sets `baseColorFactor` of every primitive slot of `e` to `t`, one slot at a time. */
    method SetBaseColor(e: int, t: Tint)
      modifies this
      ensures slots == Painted(old(slots), e, t)
      ensures selectedRenderable == old(selectedRenderable) && hasStatusToast == old(hasStatusToast)
      ensures statusText == old(statusText) && toasts == old(toasts) && popups == old(popups)
    {
      var primitiveCount := GetPrimitiveCount(e);
      for i := 0 to primitiveCount
        invariant slots.Keys == old(slots).Keys
        invariant e in slots ==> |slots[e]| == primitiveCount
        invariant forall k :: 0 <= k < i ==> slots[e][k] == t
        invariant forall k :: i <= k < primitiveCount ==> slots[e][k] == old(slots)[e][k]
        invariant forall f :: f in slots && f != e ==> slots[f] == old(slots)[f]
        invariant selectedRenderable == old(selectedRenderable) && hasStatusToast == old(hasStatusToast)
        invariant statusText == old(statusText) && toasts == old(toasts) && popups == old(popups)
      {
        slots := slots[e := slots[e][i := t]];
      }
      if e in slots {
        assert forall k :: 0 <= k < primitiveCount ==> slots[e][k] == Fill(primitiveCount, t)[k];
        assert slots[e] == Fill(primitiveCount, t);
        ghost var painted := old(slots)[e := Fill(primitiveCount, t)];
        assert slots.Keys == painted.Keys;
        assert forall f :: f in slots ==> slots[f] == painted[f];
      } else {
        assert forall f :: f in slots ==> slots[f] == old(slots)[f];
      }
    }

    /** setStatusText: replaces the toast unless one exists that already says `text`. */
    method SetStatusText(text: string)
      modifies this
      ensures Snapshot() == StatusAfter(old(Snapshot()), text)
    {
      if !hasStatusToast || statusText != Some(text) {
        statusText := Some(text);
        hasStatusToast := true;
        toasts := toasts + [text];
      }
    }

    /**
     * `infoPopupWindow?.dismiss()`; the window does the same by itself on a
     * touch outside it, which keeps the selection invariant.
     */
    method DismissInfoPopup()
      modifies this
      ensures Snapshot() == old(Snapshot()).(popups := Dismissed(old(popups)))
      ensures Inv(old(Snapshot())) ==> Inv(Snapshot())
    {
      ghost var s := Snapshot();
      if Inv(s) {
        OutsideTouchPreservesInv(s);
      }
      if popups != [] {
        var last := |popups| - 1;
        popups := popups[..last] + [popups[last].(showing := false)];
      }
    }

    /** showInfoPopup: dismisses the current popup, then shows a new one labelled with `entityName`. */
    method ShowInfoPopup(entityName: string)
      modifies this
      ensures Snapshot() == PopupAfter(old(Snapshot()), entityName)
      ensures OnlyLastMayShow(old(popups)) ==> OnlyLastMayShow(popups)
    {
      DismissInfoPopup();
      popups := popups + [Popup(PopupPrefix + entityName, true)];
      PopupReplaces(old(Snapshot()), entityName);
    }

    /** The pick callback of onSingleTapUp, run when the engine reports the entity `renderable` (0: nothing hit). */
    method OnPickResult(renderable: int)
      modifies this
      ensures Snapshot() == PickResult(old(Snapshot()), renderable)
      ensures Inv(old(Snapshot())) ==> Inv(Snapshot())
    {
      ghost var s := Snapshot();
      if Inv(s) {
        PickPreservesInv(s, renderable);
      }
      if renderable == 0 {
        return;
      }
      if selectedRenderable == Some(renderable) {
        Deselect(renderable);
      } else {
        Select(renderable);
      }
    }

    /** The branch of the pick callback for a tap on the selected entity. */
    method Deselect(renderable: int)
      modifies this
      ensures Snapshot() == Deselected(old(Snapshot()), renderable)
    {
      SetBaseColor(renderable, White);
      selectedRenderable := None;
      SetStatusText(DeselectedText(renderable));
      DismissInfoPopup();
    }

    /** The branch of the pick callback for a tap on any other entity. */
    method Select(renderable: int)
      modifies this
      ensures Snapshot() == Selected(old(Snapshot()), renderable)
    {
      ghost var s := Snapshot();
      if selectedRenderable.Some? {
        var previousRenderable := selectedRenderable.value;
        if previousRenderable in slots {
          SetBaseColor(previousRenderable, White);
        }
      }
      if renderable in slots {
        SetBaseColor(renderable, Red);
      }
      assert slots == SelectSlots(s, renderable);
      selectedRenderable := Some(renderable);
      SetStatusText(SelectedText(renderable));
      ShowInfoPopup(IntToString(renderable));
    }
  }
}
