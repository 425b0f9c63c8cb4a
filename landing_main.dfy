/** The landing page script (js/main.js): the mobile navigation with its toggle button,
    the link highlight of the visible section, and the application bottom sheet with
    its scroll lock, focus hand-back and Tab focus trap. Elements that can hold the
    focus are named by numbers; `None` is "no element". */
module LandingMain {
  import opened Wrappers
  import opened Strings
  import opened SiteShell

  /** The width from which `(min-width: 861px)` matches. */
  const DesktopWidth: int := 861

  // ---------------------------------------------------------------- active anchor

  /** `setActiveLink(id)`: a link is active exactly when its `href` is `id`. */
  method SetActiveLink(links: seq<NavLink>, id: String) returns (r: seq<NavLink>)
    ensures |r| == |links|
    ensures forall i | 0 <= i < |r| :: r[i].href == links[i].href && (r[i].active <==> links[i].href == id)
  {
    r := links;
    var i := 0;
    while i < |r|
      invariant 0 <= i <= |r| == |links|
      invariant forall k | 0 <= k < |r| :: r[k].href == links[k].href
      invariant forall k | 0 <= k < i :: r[k].active == (links[k].href == id)
    {
      r := r[i := r[i].(active := r[i].href == id)];
      i := i + 1;
    }
  }

  /** An observer entry for one of the sections: its id, whether it intersects the
      band, and its visible ratio. */
  datatype Entry = Entry(id: String, intersecting: bool, ratio: real)

  /** The entry the observer callback picks: among the intersecting entries the first
      one with the largest ratio, which is what the stable descending sort puts first. */
  function MostVisible(entries: seq<Entry>): (r: Option<nat>)
    ensures r.Some? ==> r.value < |entries| && entries[r.value].intersecting
    ensures r.Some? ==> forall j | 0 <= j < |entries| && entries[j].intersecting ::
      entries[j].ratio <= entries[r.value].ratio
    ensures r.Some? ==> forall j | 0 <= j < r.value && entries[j].intersecting ::
      entries[j].ratio < entries[r.value].ratio
    ensures r.None? <==> forall j | 0 <= j < |entries| :: !entries[j].intersecting
    decreases |entries|
  {
    if entries == [] then None
    else
      var rest := MostVisible(entries[1..]);
      assert forall j | 1 <= j < |entries| :: entries[j] == entries[1..][j - 1];
      if !entries[0].intersecting then
        if rest.Some? then Some(rest.value + 1) else None
      else if rest.Some? && entries[0].ratio < entries[1..][rest.value].ratio then Some(rest.value + 1)
      else Some(0)
  }

  /** Entry `k` is the one the filter and the stable descending sort put first: it
      intersects, no intersecting entry has a larger ratio, and every intersecting entry
      before it has a smaller one. */
  predicate FirstMost(entries: seq<Entry>, k: nat) {
    && k < |entries| && entries[k].intersecting
    && (forall j | 0 <= j < |entries| && entries[j].intersecting :: entries[j].ratio <= entries[k].ratio)
    && (forall j | 0 <= j < k && entries[j].intersecting :: entries[j].ratio < entries[k].ratio)
  }

  /** At most one entry comes first. */
  lemma FirstMostUnique(entries: seq<Entry>, k: nat, m: nat)
    requires FirstMost(entries, k) && FirstMost(entries, m)
    ensures k == m
  {
  }

  /** The link the callback highlights: "#" and the id of the entry that comes first,
      when that entry has an id; nothing when no entry intersects. */
  function HighlightTarget(entries: seq<Entry>): (r: Option<String>)
    ensures (forall j | 0 <= j < |entries| :: !entries[j].intersecting) ==> r.None?
    ensures (exists j | 0 <= j < |entries| :: entries[j].intersecting) ==> exists k: nat :: FirstMost(entries, k)
    ensures forall k: nat | FirstMost(entries, k) ::
      r == (if entries[k].id != [] then Some("#" + entries[k].id) else None)
  {
    var k := MostVisible(entries);
    if k.Some? then
      assert FirstMost(entries, k.value);
      assert forall m: nat | FirstMost(entries, m) :: m == k.value by {
        forall m: nat | FirstMost(entries, m) ensures m == k.value {
          FirstMostUnique(entries, k.value, m);
        }
      }
      if entries[k.value].id != [] then Some("#" + entries[k.value].id) else None
    else None
  }

  // ---------------------------------------------------------------- focus trap

  /** A candidate of the trap's selector: its element, `disabled` and `tabIndex`. */
  datatype Control = Control(element: nat, disabled: bool, tabIndex: int)

  predicate Tabbable(c: Control) {
    !c.disabled && c.tabIndex != -1
  }

  /** The trap's `focusables`: the candidates that are enabled and not taken out of the
      tab order, in document order. */
  function Focusables(cs: seq<Control>): (r: seq<nat>)
    ensures |r| <= |cs|
    ensures (forall i | 0 <= i < |cs| :: !Tabbable(cs[i])) <==> r == []
    ensures r != [] ==> exists i | 0 <= i < |cs| :: Tabbable(cs[i]) && cs[i].element == r[0]
    ensures forall e :: e in r <==> exists i | 0 <= i < |cs| :: Tabbable(cs[i]) && cs[i].element == e
    ensures r != [] ==> exists i | 0 <= i < |cs| ::
      Tabbable(cs[i]) && cs[i].element == r[0] && forall j | 0 <= j < i :: !Tabbable(cs[j])
    ensures r != [] ==> exists i | 0 <= i < |cs| ::
      Tabbable(cs[i]) && cs[i].element == r[|r| - 1] && forall j | i < j < |cs| :: !Tabbable(cs[j])
    decreases |cs|
  {
    if cs == [] then []
    else
      var rest := Focusables(cs[1..]);
      assert forall j | 1 <= j < |cs| :: cs[j] == cs[1..][j - 1];
      if Tabbable(cs[0]) then [cs[0].element] + rest else rest
  }

  /** What the Tab handler does with the focus: with the sheet open and something to
      focus, Shift+Tab on the first element wraps to the last and Tab on the last wraps
      to the first, and the browser's own move is prevented; everything else is left to
      the browser (`None`). */
  function TrapMove(open: bool, focusables: seq<nat>, shift: bool, active: Option<nat>): (r: Option<nat>)
    ensures r.Some? ==> open && focusables != []
    ensures open && focusables != [] && shift && active == Some(focusables[0]) ==>
      r == Some(focusables[|focusables| - 1])
    ensures open && focusables != [] && !shift && active == Some(focusables[|focusables| - 1]) ==>
      r == Some(focusables[0])
    ensures r.Some? ==> active == Some(if shift then focusables[0] else focusables[|focusables| - 1])
  {
    if !open || focusables == [] then None
    else if shift && active == Some(focusables[0]) then Some(focusables[|focusables| - 1])
    else if !shift && active == Some(focusables[|focusables| - 1]) then Some(focusables[0])
    else None
  }

  /** The trap never lets the focus leave the focusables by wrapping, and going round
      one way and back returns to the start. */
  lemma TrapWraps(focusables: seq<nat>, shift: bool, active: Option<nat>)
    requires focusables != []
    ensures TrapMove(true, focusables, shift, active).Some? ==> TrapMove(true, focusables, shift, active).value in focusables
    ensures var m := TrapMove(true, focusables, shift, active);
      m.Some? ==> TrapMove(true, focusables, !shift, m).Some? && TrapMove(true, focusables, !shift, m) == active
  {
  }

  // ---------------------------------------------------------------- page state

  class Landing {
    /** `.nav` and `.nav__toggle` both exist. */
    const navPresent: bool
    /** The first link or button of `#navPanel`, if any. */
    const panelFirst: Option<nat>
    /** `#applyModal` exists. */
    const modalPresent: bool
    /** The first input, select, textarea or button of the sheet, if any. */
    const modalFirst: Option<nat>
    /** The nav's "is-open" and the toggle's `aria-expanded`. */
    var navOpen: bool
    var ariaExpanded: bool
    /** The sheet's "is-open" and `aria-hidden`. */
    var modalOpen: bool
    var modalHidden: bool
    /** `lockScroll`: the root's "is-locked" and `body.style.overflow = "hidden"`. */
    var locked: bool
    /** `lastFocus`, saved by `openModal`. */
    var lastFocus: Option<nat>
    /** `document.activeElement`. */
    var focus: Option<nat>

    /** The toggle mirrors the nav, `aria-hidden` negates "is-open", the page is locked
        exactly while the sheet is open, and missing elements never open. */
    predicate Valid()
      reads this
    {
      && ariaExpanded == navOpen && (!navPresent ==> !navOpen)
      && modalHidden == !modalOpen && locked == modalOpen && (!modalPresent ==> !modalOpen)
    }

    constructor (nav: bool, panel: Option<nat>, modal: bool, first: Option<nat>, active: Option<nat>)
      ensures Valid()
      ensures navPresent == nav && panelFirst == panel && modalPresent == modal && modalFirst == first
      ensures !navOpen && !modalOpen && lastFocus == None && focus == active
    {
      navPresent, panelFirst, modalPresent, modalFirst := nav, panel, modal, first;
      navOpen, ariaExpanded := false, false;
      modalOpen, modalHidden, locked := false, true, false;
      lastFocus, focus := None, active;
    }

    /** `setNavOpen(open)`: the nav and the toggle take `open`, and opening focuses the
        panel's first link or button. Without the nav or the toggle nothing happens. */
    method SetNavOpen(open: bool)
      requires Valid()
      modifies this`navOpen, this`ariaExpanded, this`focus
      ensures Valid()
      ensures navOpen == if navPresent then open else old(navOpen)
      ensures focus == if navPresent && open && panelFirst.Some? then panelFirst else old(focus)
    {
      if !navPresent {
        return;
      }
      navOpen, ariaExpanded := open, open;
      if open && panelFirst.Some? {
        focus := panelFirst;
      }
    }

    /** A click on the toggle flips the nav. */
    method ToggleClick()
      requires Valid()
      modifies this`navOpen, this`ariaExpanded, this`focus
      ensures Valid()
      ensures navOpen == if navPresent then !old(navOpen) else old(navOpen)
      ensures focus == if navPresent && !old(navOpen) && panelFirst.Some? then panelFirst else old(focus)
    {
      if navPresent {
        SetNavOpen(!navOpen);
      }
    }

    /** A click inside the panel closes the nav when it lands in a link or a button. */
    method PanelClick(onLinkOrButton: bool)
      requires Valid()
      modifies this`navOpen, this`ariaExpanded, this`focus
      ensures Valid()
      ensures navOpen == if onLinkOrButton && navPresent then false else old(navOpen)
      ensures focus == old(focus)
    {
      if onLinkOrButton {
        SetNavOpen(false);
      }
    }

    /** A click anywhere in the document closes an open nav unless it is inside the nav
        or the toggle; a closed nav is left alone. */
    method DocumentClick(insideNav: bool, insideToggle: bool)
      requires Valid()
      modifies this`navOpen, this`ariaExpanded, this`focus
      ensures Valid()
      ensures navOpen == (old(navOpen) && (insideNav || insideToggle))
      ensures focus == old(focus)
    {
      if !navPresent || !navOpen || insideNav || insideToggle {
        return;
      }
      SetNavOpen(false);
    }

    /** A resize to a desktop width always closes the nav. */
    method Resize(width: int)
      requires Valid()
      modifies this`navOpen, this`ariaExpanded, this`focus
      ensures Valid()
      ensures navOpen == (old(navOpen) && width < DesktopWidth)
      ensures focus == old(focus)
    {
      if width >= DesktopWidth {
        SetNavOpen(false);
      }
    }

    /** `openModal()`: remembers the focused element, opens and locks, and moves the
        focus into the sheet. */
    method OpenModal()
      requires Valid()
      modifies this`modalOpen, this`modalHidden, this`locked, this`lastFocus, this`focus
      ensures Valid()
      ensures modalPresent ==> (modalOpen && locked && lastFocus == old(focus)
        && focus == (if modalFirst.Some? then modalFirst else old(focus)))
      ensures !modalPresent ==> modalOpen == old(modalOpen) && lastFocus == old(lastFocus) && focus == old(focus)
    {
      if !modalPresent {
        return;
      }
      lastFocus := focus;
      modalOpen, modalHidden, locked := true, false, true;
      if modalFirst.Some? {
        focus := modalFirst;
      }
    }

    /** `closeModal()`: closes and unlocks, and hands the focus back to the remembered
        element when there is one. */
    method CloseModal()
      requires Valid()
      modifies this`modalOpen, this`modalHidden, this`locked, this`focus
      ensures Valid()
      ensures modalPresent ==> !modalOpen && !locked && focus == (if lastFocus.Some? then lastFocus else old(focus))
      ensures !modalPresent ==> modalOpen == old(modalOpen) && focus == old(focus)
    {
      if !modalPresent {
        return;
      }
      modalOpen, modalHidden, locked := false, true, false;
      if lastFocus.Some? {
        focus := lastFocus;
      }
    }

    /** Opening and then closing the sheet leaves the page unlocked with the focus where
        it was. */
    method OpenThenClose()
      requires Valid() && modalPresent && focus.Some?
      modifies this`modalOpen, this`modalHidden, this`locked, this`lastFocus, this`focus
      ensures Valid()
      ensures !modalOpen && !locked && focus == old(focus)
    {
      OpenModal();
      CloseModal();
    }

    /** A click inside the sheet closes it when the target has `data-close="true"`. */
    method SheetClick(dataClose: Option<String>)
      requires Valid()
      modifies this`modalOpen, this`modalHidden, this`locked, this`focus
      ensures Valid()
      ensures dataClose != Some("true") ==> modalOpen == old(modalOpen) && focus == old(focus)
      ensures dataClose == Some("true") && modalPresent ==>
        !modalOpen && !locked && focus == (if lastFocus.Some? then lastFocus else old(focus))
    {
      if dataClose == Some("true") {
        CloseModal();
      }
    }

    /** Escape closes the sheet only when it is open; otherwise the focus stays. */
    method Escape()
      requires Valid()
      modifies this`modalOpen, this`modalHidden, this`locked, this`focus
      ensures Valid()
      ensures !modalOpen
      ensures !old(modalOpen) ==> focus == old(focus)
      ensures old(modalOpen) ==> !locked && focus == (if lastFocus.Some? then lastFocus else old(focus))
    {
      if modalOpen {
        CloseModal();
      }
    }

    /** The Tab handler; `prevented` says that the browser's own move was cancelled. */
    method TabKey(shift: bool, candidates: seq<Control>) returns (prevented: bool)
      requires Valid()
      modifies this`focus
      ensures var m := TrapMove(modalOpen, Focusables(candidates), shift, old(focus));
        prevented == m.Some? && focus == (if m.Some? then m else old(focus))
    {
      var focusables := Focusables(candidates);
      var m := TrapMove(modalOpen, focusables, shift, focus);
      prevented := m.Some?;
      if m.Some? {
        focus := m;
      }
    }

    /** A click on a `.nav__link` closes the nav. */
    method NavLinkClick()
      requires Valid()
      modifies this`navOpen, this`ariaExpanded, this`focus
      ensures Valid()
      ensures navPresent ==> !navOpen
      ensures focus == old(focus)
    {
      SetNavOpen(false);
    }
  }
}
