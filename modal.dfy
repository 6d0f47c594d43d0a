/**
 * The modal controller: `openModal`, `closeModal`, `injectVideo`,
 * `clearVideo` and `toggleBodyScroll`, over the `.modal` elements of the page
 * in document order, with the module variable `lastModalTrigger`.
 */
module Modals {
  import opened Common

  /**
   * An element carrying `data-modal-target`: its identity, the id of the
   * modal it opens, its tag name as the DOM reports it and its
   * `data-video-url`, if any.
   */
  datatype Trigger = Trigger(element: nat, target: string, tagName: string, videoUrl: Option<string>)

  /**
   * A `.modal` element: its `data-modal-id`, the `is-open` class, the
   * `modal--video` class, whether it holds a `[data-modal-video-container]`,
   * the `src` of each iframe in that container, and whether it holds a
   * `.modal__close` control.
   */
  datatype Modal = Modal(
    id: string,
    open: bool,
    isVideo: bool,
    hasVideoContainer: bool,
    iframes: seq<string>,
    hasCloseControl: bool)

  /** Elements that receive focus. */
  datatype Focus = CloseControlOf(modal: nat) | TriggerElement(trigger: Trigger)

  /** Some modal carries `is-open`. */
  ghost predicate AnyOpen(s: seq<Modal>)
  {
    exists i :: 0 <= i < |s| && s[i].open
  }

  /** `k` is the first modal with `data-modal-id` equal to `id`, as `querySelector` picks it. */
  ghost predicate FirstWithId(s: seq<Modal>, id: string, k: int)
  {
    0 <= k < |s| && s[k].id == id && forall j :: 0 <= j < k ==> s[j].id != id
  }

  /** `k` is the first open modal, as `querySelector('.modal.is-open')` picks it. */
  ghost predicate FirstOpen(s: seq<Modal>, k: int)
  {
    0 <= k < |s| && s[k].open && forall j :: 0 <= j < k ==> !s[j].open
  }

  /** The container content `injectVideo` writes: one iframe for a truthy URL, else nothing. */
  function VideoFrames(trigger: Trigger): (r: seq<string>)
    ensures |r| <= 1
    ensures |r| == 1 <==> Truthy(trigger.videoUrl)
    ensures |r| == 1 ==> r[0] == trigger.videoUrl.value
  {
    if Truthy(trigger.videoUrl) then [trigger.videoUrl.value] else []
  }

  /** The modal after `injectVideo`; only a video modal with a container is touched. */
  function Injected(m: Modal, trigger: Trigger): Modal
  {
    if m.isVideo && m.hasVideoContainer then m.(iframes := VideoFrames(trigger)) else m
  }

  /** The modal after `clearVideo`. */
  function Cleared(m: Modal): Modal
  {
    if m.isVideo && m.hasVideoContainer then m.(iframes := []) else m
  }

  class Controller {
    /** The `.modal` elements, in document order. */
    const modals: array<Modal>
    /** `lastModalTrigger`. */
    var lastTrigger: Option<Trigger>
    /** The `modal-open` class on `document.body`. */
    var bodyModalOpen: bool
    /** Every element focused by the controller, oldest first. */
    ghost var focusLog: seq<Focus>

    /** The body scroll lock reflects whether some modal is open. */
    ghost predicate Valid()
      reads this, modals
    {
      bodyModalOpen == AnyOpen(modals[..])
    }

    /** Page load: the markup has every modal closed and no trigger is recorded. */
    constructor (initial: seq<Modal>)
      requires forall i :: 0 <= i < |initial| ==> !initial[i].open
      ensures Valid() && fresh(modals)
      ensures modals[..] == initial && lastTrigger == None && focusLog == []
      ensures !bodyModalOpen
    {
      modals := new Modal[|initial|](i requires 0 <= i < |initial| => initial[i]);
      lastTrigger := None;
      focusLog := [];
      bodyModalOpen := false;
    }

    /** `document.querySelector('[data-modal-id="<id>"]')`. */
    method FindModal(id: string) returns (k: Option<nat>)
      ensures k.Some? ==> FirstWithId(modals[..], id, k.value)
      ensures k.None? ==> forall j :: 0 <= j < modals.Length ==> modals[j].id != id
    {
      var i := 0;
      while i < modals.Length
        invariant 0 <= i <= modals.Length
        invariant forall j :: 0 <= j < i ==> modals[j].id != id
      {
        if modals[i].id == id {
          return Some(i);
        }
        i := i + 1;
      }
      return None;
    }

    /** `document.querySelector('.modal.is-open')`. */
    method FindOpen() returns (k: Option<nat>)
      ensures k.Some? ==> FirstOpen(modals[..], k.value)
      ensures k.None? <==> !AnyOpen(modals[..])
    {
      var i := 0;
      while i < modals.Length
        invariant 0 <= i <= modals.Length
        invariant forall j :: 0 <= j < i ==> !modals[j].open
      {
        if modals[i].open {
          return Some(i);
        }
        i := i + 1;
      }
      return None;
    }

    /** `toggleBodyScroll()`. */
    method ToggleBodyScroll()
      modifies this`bodyModalOpen
      ensures Valid()
    {
      var open := FindOpen();
      bodyModalOpen := open.Some?;
    }

    /** `injectVideo(modal, trigger)`. */
    method InjectVideo(k: nat, trigger: Trigger)
      requires k < modals.Length
      modifies modals
      ensures modals[..] == old(modals[..])[k := Injected(old(modals[k]), trigger)]
    {
      var m := modals[k];
      if !m.isVideo {
        return;
      }
      if m.hasVideoContainer {
        modals[k] := m.(iframes := VideoFrames(trigger));
      }
    }

    /** `clearVideo(modal)`. */
    method ClearVideo(k: nat)
      requires k < modals.Length
      modifies modals
      ensures modals[..] == old(modals[..])[k := Cleared(old(modals[k]))]
    {
      var m := modals[k];
      if !m.isVideo {
        return;
      }
      if m.hasVideoContainer {
        modals[k] := m.(iframes := []);
      }
    }

    /**
     * `openModal(modalId, trigger)`: nothing happens for an unknown id;
     * otherwise the first modal with that id gets its video, opens, locks the
     * body scroll, and takes focus on its close control, and the trigger is
     * recorded for focus return.
     */
    method OpenModal(id: string, trigger: Trigger)
      requires Valid()
      modifies this, modals
      ensures Valid()
      ensures (forall j :: 0 <= j < modals.Length ==> old(modals[j]).id != id) ==> unchanged(this, modals)
      ensures forall k :: FirstWithId(old(modals[..]), id, k) ==>
        modals[..] == old(modals[..])[k := Injected(old(modals[k]), trigger).(open := true)] &&
        lastTrigger == Some(trigger) && bodyModalOpen &&
        focusLog == old(focusLog) + (if modals[k].hasCloseControl then [CloseControlOf(k)] else [])
    {
      var found := FindModal(id);
      if found.None? {
        return;
      }
      var k := found.value;
      lastTrigger := Some(trigger);
      InjectVideo(k, trigger);
      modals[k] := modals[k].(open := true);
      ToggleBodyScroll();
      if modals[k].hasCloseControl {
        focusLog := focusLog + [CloseControlOf(k)];
      }
    }

    /**
     * `closeModal(modal)`: nothing happens without a modal; otherwise its
     * video is removed, it closes, the body lock is re-evaluated, and focus
     * returns to the recorded trigger, whose record is then cleared, so
     * focus returns at most once per recorded trigger.
     */
    method CloseModal(modal: Option<nat>)
      requires Valid()
      requires modal.Some? ==> modal.value < modals.Length
      modifies this, modals
      ensures Valid()
      ensures modal.None? ==> unchanged(this, modals)
      ensures modal.Some? ==>
        modals[..] == old(modals[..])[modal.value := Cleared(old(modals[modal.value])).(open := false)] &&
        lastTrigger == None &&
        focusLog == old(focusLog) + (if old(lastTrigger).Some? then [TriggerElement(old(lastTrigger).value)] else [])
    {
      if modal.None? {
        return;
      }
      var k := modal.value;
      ClearVideo(k);
      modals[k] := modals[k].(open := false);
      ToggleBodyScroll();
      if lastTrigger.Some? {
        focusLog := focusLog + [TriggerElement(lastTrigger.value)];
        lastTrigger := None;
      }
    }
  }

  // ---------------------------------------------------------------------------
  // Properties of the video content.

  /**
   * Opening a video modal with a container leaves exactly one iframe with the
   * trigger's URL when it has one, and an empty container otherwise; closing
   * empties it again.
   */
  lemma VideoOpenClose(m: Modal, trigger: Trigger)
    requires m.isVideo && m.hasVideoContainer
    ensures Truthy(trigger.videoUrl) ==> Injected(m, trigger).iframes == [trigger.videoUrl.value]
    ensures !Truthy(trigger.videoUrl) ==> Injected(m, trigger).iframes == []
    ensures Cleared(Injected(m, trigger)).iframes == []
  {
  }

  /** The content of a modal without the `modal--video` class is never touched. */
  lemma NonVideoUntouched(m: Modal, trigger: Trigger)
    requires !m.isVideo
    ensures Injected(m, trigger) == m && Cleared(m) == m
  {
  }
}
