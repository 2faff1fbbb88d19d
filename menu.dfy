/** The navigation menu: the panel's `active` class and the button's
    `aria-expanded` and `aria-label` attributes, and the three handlers that
    change them (button click, click anywhere, settled resize). */
module Menu {
  const OpenLabel := "Open menu"
  const CloseLabel := "Close menu"
  /** Widths above this close the menu. */
  const Breakpoint := 768

  datatype MenuState = MenuState(active: bool, ariaExpanded: bool, ariaLabel: string)

  /** Where a click lands: on the menu button, inside the panel, or elsewhere. */
  datatype ClickTarget = OnButton | InPanel | Elsewhere

  /** The expanded flag mirrors the panel class. */
  predicate Synced(m: MenuState)
  {
    m.ariaExpanded == m.active
  }

  /** Both attributes agree with the panel class. */
  predicate Consistent(m: MenuState)
  {
    Synced(m) && m.ariaLabel == (if m.active then CloseLabel else OpenLabel)
  }

  /** The button's click handler: flips the class and writes both attributes
      from the class as it was, so the result is consistent whatever the
      attributes said before. */
  function Toggled(m: MenuState): (r: MenuState)
    ensures r.active == !m.active
    ensures Consistent(r)
  {
    MenuState(!m.active, !m.active, if m.active then OpenLabel else CloseLabel)
  }

  /** Removes the class and clears the expanded flag; the label is not written. */
  function Closed(m: MenuState): MenuState
  {
    m.(active := false, ariaExpanded := false)
  }

  /** The document's click handler: closes the menu for a click outside both
      the panel and the button. */
  function AfterDocumentClick(m: MenuState, target: ClickTarget): MenuState
  {
    if target == Elsewhere then Closed(m) else m
  }

  /** The resize handler once the debounce has settled on `width`. */
  function AfterResize(m: MenuState, width: int): MenuState
  {
    if width > Breakpoint then Closed(m) else m
  }

  /** A whole click: the button's handler runs first, then the event bubbles
      to the document's handler. */
  function AfterClick(m: MenuState, target: ClickTarget): MenuState
  {
    AfterDocumentClick(if target == OnButton then Toggled(m) else m, target)
  }

  /** Toggling twice restores the class and sets the flag to match it; from
      a consistent state it restores everything. */
  lemma ToggleTwice(m: MenuState)
    ensures Toggled(Toggled(m)).active == m.active
    ensures Toggled(Toggled(m)).ariaExpanded == m.active
    ensures Consistent(m) ==> Toggled(Toggled(m)) == m
  {
  }

  /** An outside click leaves the menu closed with the flag cleared and the
      label as it was, and a second one changes nothing; a click inside the
      panel or on the button leaves the state to the button's handler. */
  lemma DocumentClickProperties(m: MenuState, target: ClickTarget)
    ensures var r := AfterDocumentClick(m, target);
            && (target == Elsewhere ==> !r.active && !r.ariaExpanded)
            && (target != Elsewhere ==> r == m)
            && r.ariaLabel == m.ariaLabel
            && AfterDocumentClick(r, target) == r
  {
  }

  /** A settled resize wider than the breakpoint closes the menu the same
      way, idempotently and without touching the label; a narrower one
      changes nothing. */
  lemma ResizeProperties(m: MenuState, width: int)
    ensures var r := AfterResize(m, width);
            && (width > Breakpoint ==> !r.active && !r.ariaExpanded)
            && (width <= Breakpoint ==> r == m)
            && r.ariaLabel == m.ariaLabel
            && AfterResize(r, width) == r
  {
  }

  /** A click on the button is exactly a toggle; the document handler sees
      the target inside the button and does nothing. */
  lemma ClickOnButtonToggles(m: MenuState)
    ensures AfterClick(m, OnButton) == Toggled(m)
  {
  }

  /** Every handler keeps the expanded flag in step with the class. */
  lemma SyncedPreserved(m: MenuState, target: ClickTarget, width: int)
    requires Synced(m)
    ensures Synced(AfterClick(m, target)) && Synced(AfterResize(m, width))
  {
  }

  /** The label quirk: closing an open, consistent menu from outside or by a
      wide resize leaves the label at "Close menu" on a closed menu. */
  lemma CloseLeavesStaleLabel(m: MenuState, width: int)
    requires Consistent(m) && m.active && width > Breakpoint
    ensures AfterClick(m, Elsewhere).ariaLabel == CloseLabel
    ensures !Consistent(AfterClick(m, Elsewhere))
    ensures !Consistent(AfterResize(m, width))
  {
  }

  /** The menu button and panel as the page holds them. */
  class MenuController {
    var active: bool
    var ariaExpanded: bool
    var ariaLabel: string

    function State(): MenuState
      reads this
    {
      MenuState(active, ariaExpanded, ariaLabel)
    }

    /** Takes the state the page's markup starts with. */
    constructor (initial: MenuState)
      ensures State() == initial
    {
      active := initial.active;
      ariaExpanded := initial.ariaExpanded;
      ariaLabel := initial.ariaLabel;
    }

    method ToggleClick()
      modifies this
      ensures State() == Toggled(old(State()))
    {
      var wasExpanded := active;
      active := !active;
      ariaExpanded := !wasExpanded;
      ariaLabel := if wasExpanded then OpenLabel else CloseLabel;
    }

    method DocumentClick(target: ClickTarget)
      modifies this
      ensures State() == AfterDocumentClick(old(State()), target)
    {
      if target == Elsewhere {
        active := false;
        ariaExpanded := false;
      }
    }

    method ResizeSettled(width: int)
      modifies this
      ensures State() == AfterResize(old(State()), width)
    {
      if width > Breakpoint {
        active := false;
        ariaExpanded := false;
      }
    }

    /** Dispatches a click: the button's listener, then the document's. */
    method Click(target: ClickTarget)
      modifies this
      ensures State() == AfterClick(old(State()), target)
    {
      if target == OnButton {
        ToggleClick();
      }
      DocumentClick(target);
    }
  }
}
