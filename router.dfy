/**
 * Document-level event routing: `handleDocumentClick`,
 * `handleDocumentKeydown` and the focus guard `handleDocumentFocus`, as a
 * dispatch rule over abstract events and its execution on the two
 * controllers.
 */
module Router {
  import opened Common
  import opened Modals
  import MobileNav

  /** An element carrying `data-modal-close`, with its nearest enclosing `.modal`. */
  datatype CloseTrigger = CloseTrigger(enclosingModal: Option<nat>)

  /**
   * A click, reduced to what `closest` finds from its target: the nearest
   * `[data-modal-target]` and the nearest `[data-modal-close]`.
   */
  datatype ClickEvent = ClickEvent(openTrigger: Option<Trigger>, closeTrigger: Option<CloseTrigger>)

  /** A key press: `event.key` and the nearest `[data-modal-target]` of its target. */
  datatype KeyEvent = KeyEvent(key: string, openTrigger: Option<Trigger>)

  /** What a document listener decides to do. */
  datatype Action =
    | NoAction
    | OpenModalAction(id: string, trigger: Trigger)
    | CloseModalAction(modal: Option<nat>)
    | CloseActiveNav
    | CloseFirstOpenModal

  datatype KeyDispatch = KeyDispatch(action: Action, preventDefault: bool)

  /** `toLowerCase` on the ASCII letters that HTML tag names use. */
  function AsciiLower(s: string): (r: string)
    ensures |r| == |s|
    ensures forall i :: 0 <= i < |s| ==> ('A' <= s[i] <= 'Z' ==> r[i] as int == s[i] as int + 32)
    ensures forall i :: 0 <= i < |s| ==> (!('A' <= s[i] <= 'Z') ==> r[i] == s[i])
  {
    if s == [] then []
    else
      var c := s[0];
      [if 'A' <= c <= 'Z' then (c as int + 32) as char else c] + AsciiLower(s[1..])
  }

  /** A `button` or `a` trigger: the browser already activates it from the keyboard. */
  predicate NativelyActivated(t: Trigger)
  {
    var tag := AsciiLower(t.tagName);
    tag == "button" || tag == "a"
  }

  predicate IsActivationKey(key: string)
  {
    key == "Enter" || key == " "
  }

  /**
   * `handleDocumentClick`: an open trigger wins over a close trigger; a close
   * trigger closes its enclosing modal.
   */
  function ClickAction(ev: ClickEvent): (r: Action)
    ensures r.OpenModalAction? <==> ev.openTrigger.Some?
    ensures r.OpenModalAction? ==> r.trigger == ev.openTrigger.value && r.id == ev.openTrigger.value.target
    ensures r.CloseModalAction? <==> ev.openTrigger.None? && ev.closeTrigger.Some?
    ensures r.CloseModalAction? ==> r.modal == ev.closeTrigger.value.enclosingModal
    ensures r.NoAction? || r.OpenModalAction? || r.CloseModalAction?
  {
    match ev.openTrigger
    case Some(t) => OpenModalAction(t.target, t)
    case None =>
      match ev.closeTrigger
      case Some(c) => CloseModalAction(c.enclosingModal)
      case None => NoAction
  }

  /**
   * `handleDocumentKeydown`: Escape closes the active mobile nav if there is
   * one and otherwise the open modal; Enter or Space on a custom trigger
   * opens its modal and suppresses the default action.
   */
  function KeyAction(ev: KeyEvent, navActive: bool): (r: KeyDispatch)
    ensures r.preventDefault <==> r.action.OpenModalAction?
    ensures ev.key == "Escape" ==> r.action == if navActive then CloseActiveNav else CloseFirstOpenModal
    ensures r.action.OpenModalAction? <==>
      IsActivationKey(ev.key) && ev.openTrigger.Some? && !NativelyActivated(ev.openTrigger.value)
    ensures r.action.OpenModalAction? ==>
      r.action.trigger == ev.openTrigger.value && r.action.id == ev.openTrigger.value.target
    ensures ev.key != "Escape" ==> r.action.NoAction? || r.action.OpenModalAction?
  {
    if ev.key == "Escape" then
      KeyDispatch(if navActive then CloseActiveNav else CloseFirstOpenModal, false)
    else if IsActivationKey(ev.key) && ev.openTrigger.Some? && !NativelyActivated(ev.openTrigger.value) then
      KeyDispatch(OpenModalAction(ev.openTrigger.value.target, ev.openTrigger.value), true)
    else KeyDispatch(NoAction, false)
  }

  /** Enter and Space on a `BUTTON` or `A` trigger are left to the browser. */
  lemma NativeTriggersIgnored(key: string, t: Trigger)
    requires IsActivationKey(key) && (t.tagName == "BUTTON" || t.tagName == "A")
    ensures KeyAction(KeyEvent(key, Some(t)), false) == KeyDispatch(NoAction, false)
    ensures KeyAction(KeyEvent(key, Some(t)), true) == KeyDispatch(NoAction, false)
  {
    assert AsciiLower(t.tagName) == "button" || AsciiLower(t.tagName) == "a";
  }

  /** Executes `handleDocumentClick` on the modal controller. */
  method HandleDocumentClick(modals: Controller, ev: ClickEvent)
    requires modals.Valid()
    requires ev.openTrigger.None? && ev.closeTrigger.Some? && ev.closeTrigger.value.enclosingModal.Some? ==>
      ev.closeTrigger.value.enclosingModal.value < modals.modals.Length
    modifies modals, modals.modals
    ensures modals.Valid()
    ensures ClickAction(ev).NoAction? ==> unchanged(modals, modals.modals)
    ensures ev.openTrigger.Some? ==>
      (forall k :: FirstWithId(old(modals.modals[..]), ev.openTrigger.value.target, k) ==>
         modals.modals[k].open && modals.lastTrigger == ev.openTrigger)
    ensures ClickAction(ev).CloseModalAction? && ClickAction(ev).modal.Some? ==>
      !modals.modals[ClickAction(ev).modal.value].open && modals.lastTrigger == None
  {
    match ClickAction(ev)
    case OpenModalAction(id, t) =>
      modals.OpenModal(id, t);
    case CloseModalAction(m) =>
      modals.CloseModal(m);
    case _ =>
  }

  /**
   * Executes `handleDocumentKeydown`; the result says whether
   * `preventDefault()` was called.
   */
  method HandleDocumentKeydown(nav: MobileNav.Navbars, modals: Controller, ev: KeyEvent)
    returns (preventDefault: bool)
    requires nav.Valid() && modals.Valid()
    modifies nav, nav.containers, modals, modals.modals
    ensures nav.Valid() && modals.Valid()
    ensures preventDefault == KeyAction(ev, old(nav.active).Some?).preventDefault
    ensures ev.key == "Escape" && old(nav.active).Some? ==>
      nav.active == None &&
      nav.focusLog == old(nav.focusLog) + [MobileNav.ToggleOf(old(nav.active).value)] &&
      unchanged(modals, modals.modals)
    ensures ev.key == "Escape" && old(nav.active).None? ==>
      unchanged(nav, nav.containers) &&
      (forall k :: FirstOpen(old(modals.modals[..]), k) ==> !modals.modals[k].open && modals.lastTrigger == None) &&
      (!AnyOpen(old(modals.modals[..])) ==> unchanged(modals, modals.modals))
    ensures ev.key != "Escape" ==> unchanged(nav, nav.containers)
    ensures KeyAction(ev, old(nav.active).Some?).action.OpenModalAction? ==>
      (forall k :: FirstWithId(old(modals.modals[..]), ev.openTrigger.value.target, k) ==>
         modals.modals[k].open && modals.lastTrigger == ev.openTrigger)
    ensures KeyAction(ev, old(nav.active).Some?).action.NoAction? ==> unchanged(modals, modals.modals)
  {
    var dispatch := KeyAction(ev, nav.active.Some?);
    preventDefault := dispatch.preventDefault;
    match dispatch.action
    case CloseActiveNav =>
      nav.Close(nav.active.value, true);
    case CloseFirstOpenModal =>
      var k := modals.FindOpen();
      if k.Some? {
        modals.CloseModal(k);
      }
    case OpenModalAction(id, t) =>
      modals.OpenModal(id, t);
    case _ =>
  }

  // ---------------------------------------------------------------------------
  // Focus guard.

  /** Where `handleDocumentFocus` sends focus. */
  datatype FocusTarget = NavFirstFocusable | ModalCloseControl(modal: nat)

  /**
   * `handleDocumentFocus`, over abstract containment: whether the newly
   * focused element lies inside the active nav's panel or toggle, and inside
   * the first open modal.
   */
  function FocusRedirect(
    navActive: bool, navHasFocusable: bool, insideNav: bool,
    openModal: Option<nat>, modalHasClose: bool, insideModal: bool): (r: Option<FocusTarget>)
    ensures navActive && !insideNav && navHasFocusable ==> r == Some(NavFirstFocusable)
    ensures r == Some(NavFirstFocusable) ==> navActive && !insideNav && navHasFocusable
    ensures r.Some? && r.value.ModalCloseControl? ==>
      openModal == Some(r.value.modal) && !insideModal && modalHasClose
    ensures r.None? ==>
      (!navActive || insideNav || !navHasFocusable) &&
      (openModal.None? || insideModal || !modalHasClose)
  {
    if navActive && !insideNav && navHasFocusable then Some(NavFirstFocusable)
    else match openModal
      case None => None
      case Some(k) => if !insideModal && modalHasClose then Some(ModalCloseControl(k)) else None
  }
}
