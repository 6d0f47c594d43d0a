/**
 * The mobile navigation drawer (`initMobileNavbar`). Every header container
 * that has a toggle, a panel and a backdrop gets its own `open`/`close`
 * closures; they share the module variable `activeMobileNav`, which holds at
 * most one open session.
 */
module MobileNav {
  import opened Common

  /**
   * The DOM state of one initialised navbar container: the `navbar--open`
   * class, the toggle's `aria-expanded`, the `hidden` attribute of the panel
   * and of the backdrop, and whether the panel holds an `a` or `button`.
   */
  datatype Container = Container(
    open: bool,
    ariaExpanded: bool,
    panelHidden: bool,
    backdropHidden: bool,
    hasFocusable: bool)

  /** Elements that receive focus. */
  datatype Focus = ToggleOf(index: nat) | FirstFocusableOf(index: nat)

  /** Breakpoint above which a resize closes the drawer. */
  const DesktopWidth: int := 900

  /** The four markers agree with the open flag. */
  predicate Consistent(c: Container)
  {
    c.ariaExpanded == c.open && c.panelHidden == !c.open && c.backdropHidden == !c.open
  }

  function Opened(c: Container): (r: Container)
  {
    c.(open := true, ariaExpanded := true, panelHidden := false, backdropHidden := false)
  }

  function Closed(c: Container): (r: Container)
  {
    c.(open := false, ariaExpanded := false, panelHidden := true, backdropHidden := true)
  }

  class Navbars {
    /** The initialised containers, in document order. */
    const containers: array<Container>
    /** `activeMobileNav`: the container of the open session, if any. */
    var active: Option<nat>
    /** The `navbar-open` class on `document.body`. */
    var bodyNavbarOpen: bool
    /** Every element focused by the drawer, oldest first. */
    ghost var focusLog: seq<Focus>

    /**
     * At most one container is open; it is the active session; the body
     * marker is set exactly when there is one.
     */
    ghost predicate Valid()
      reads this, containers
    {
      (forall i :: 0 <= i < containers.Length ==> Consistent(containers[i])) &&
      (match active
       case None => forall i :: 0 <= i < containers.Length ==> !containers[i].open
       case Some(a) =>
         a < containers.Length &&
         forall i :: 0 <= i < containers.Length ==> (containers[i].open <==> i == a)) &&
      bodyNavbarOpen == active.Some?
    }

    /** Page load: the header markup has every drawer closed and there is no session. */
    constructor (initial: seq<Container>)
      requires forall i :: 0 <= i < |initial| ==> Consistent(initial[i]) && !initial[i].open
      ensures Valid() && fresh(containers)
      ensures containers[..] == initial
      ensures active == None && focusLog == []
    {
      containers := new Container[|initial|](i requires 0 <= i < |initial| => initial[i]);
      active := None;
      bodyNavbarOpen := false;
      focusLog := [];
    }

    /**
     * `close(returnFocus)`: a no-op on a closed container; otherwise it closes
     * it, clears the body marker, focuses the toggle when asked and ends the
     * session if it was this container's.
     */
    method Close(i: nat, returnFocus: bool)
      requires Valid() && i < containers.Length
      modifies this, containers
      ensures Valid()
      ensures !old(containers[i].open) ==> unchanged(this, containers)
      ensures old(containers[i].open) ==>
        containers[..] == old(containers[..])[i := Closed(old(containers[i]))] &&
        active == None &&
        focusLog == old(focusLog) + (if returnFocus then [ToggleOf(i)] else [])
    {
      if !containers[i].open {
        return;
      }
      containers[i] := Closed(containers[i]);
      bodyNavbarOpen := false;
      if returnFocus {
        focusLog := focusLog + [ToggleOf(i)];
      }
      if active == Some(i) {
        active := None;
      }
    }

    /**
     * `open()`: force-closes the active session without returning focus,
     * then opens container `i`, focuses its first link or button and makes
     * it the active session.
     */
    method Open(i: nat)
      requires Valid() && i < containers.Length
      modifies this, containers
      ensures Valid()
      ensures active == Some(i) && bodyNavbarOpen
      ensures containers[i] == Opened(old(containers[i]))
      ensures forall j :: 0 <= j < containers.Length && j != i ==>
        containers[j] == if old(containers[j].open) then Closed(old(containers[j])) else old(containers[j])
      ensures focusLog == old(focusLog) + (if containers[i].hasFocusable then [FirstFocusableOf(i)] else [])
    {
      if active.Some? {
        Close(active.value, false);
      }
      containers[i] := Opened(containers[i]);
      bodyNavbarOpen := true;
      if containers[i].hasFocusable {
        focusLog := focusLog + [FirstFocusableOf(i)];
      }
      active := Some(i);
    }

    /**
     * A click on the toggle of container `i`: an open drawer closes with
     * `close()`'s default focus return to the toggle; a closed one opens.
     */
    method ToggleClick(i: nat)
      requires Valid() && i < containers.Length
      modifies this, containers
      ensures Valid()
      ensures old(containers[i].open) ==>
        containers[..] == old(containers[..])[i := Closed(old(containers[i]))] &&
        active == None &&
        focusLog == old(focusLog) + [ToggleOf(i)]
      ensures !old(containers[i].open) ==>
        active == Some(i) &&
        containers[i] == Opened(old(containers[i])) &&
        (forall j :: 0 <= j < containers.Length && j != i ==>
          containers[j] == if old(containers[j].open) then Closed(old(containers[j])) else old(containers[j])) &&
        focusLog == old(focusLog) + (if containers[i].hasFocusable then [FirstFocusableOf(i)] else [])
    {
      if containers[i].open {
        Close(i, true);
      } else {
        Open(i);
      }
    }

    /**
     * A window resize: each container's listener closes it, without
     * returning focus, when the viewport is wider than the breakpoint.
     */
    method Resize(innerWidth: int)
      requires Valid()
      modifies this, containers
      ensures Valid()
      ensures innerWidth <= DesktopWidth ==> unchanged(this, containers)
      ensures innerWidth > DesktopWidth ==>
        active == None && focusLog == old(focusLog) &&
        forall j :: 0 <= j < containers.Length ==>
          containers[j] == if old(containers[j].open) then Closed(old(containers[j])) else old(containers[j])
    {
      if innerWidth <= DesktopWidth {
        return;
      }
      for k := 0 to containers.Length
        invariant Valid()
        invariant focusLog == old(focusLog)
        invariant forall j :: 0 <= j < k ==> !containers[j].open
        invariant active.Some? ==> active.value >= k
        invariant forall j :: 0 <= j < containers.Length ==>
          containers[j] == if j < k && old(containers[j].open) then Closed(old(containers[j])) else old(containers[j])
      {
        Close(k, false);
      }
    }
  }
}
