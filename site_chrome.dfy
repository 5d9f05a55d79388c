/** The navigation bar and the modals of tyh.js: `initNavigation` (the
    hamburger and menu toggle, the scroll rule of the navbar) and
    `initModalFunctionality`, `openModal` and `closeModal`. */
module SiteChrome {
  import opened Wrappers
  import opened JsText

  // ---------------------------------------------------------------------
  // Navigation

  /** The inline background of the navbar: unset until the first scroll,
      then `rgba(15, 23, 42, 0.98)` or `rgba(15, 23, 42, 0.95)`. */
  datatype Background = BackgroundUnset | Opaque | Translucent

  /** The inline transform of the navbar: unset until the first scroll,
      then `translateY(-100%)` (hidden) or `translateY(0)`. */
  datatype Offset = OffsetUnset | Raised | Level

  /** The state `initNavigation` manages. `wired` says whether both the
      hamburger and the menu exist, in which case the click handlers are
      installed. */
  datatype Nav = Nav(
    wired: bool,
    hamburgerActive: bool,
    menuActive: bool,
    background: Background,
    offset: Offset,
    blurred: bool,
    lastScrollY: int)

  datatype NavEvent = HamburgerClick | MenuLinkClick | Scroll(y: int)

  /** The state after one event. */
  function NavStep(n: Nav, e: NavEvent): Nav
  {
    match e
    case HamburgerClick =>
      if n.wired then n.(hamburgerActive := !n.hamburgerActive, menuActive := !n.menuActive) else n
    case MenuLinkClick =>
      if n.wired then n.(hamburgerActive := false, menuActive := false) else n
    case Scroll(y) =>
      n.(background := if y > 100 then Opaque else Translucent,
         blurred := true,
         offset := if y > n.lastScrollY && y > 200 then Raised else Level,
         lastScrollY := y)
  }

  /** The state after a sequence of events, oldest first. */
  function NavRun(n: Nav, events: seq<NavEvent>): Nav
    decreases |events|
  {
    if events == [] then n else NavRun(NavStep(n, events[0]), events[1..])
  }

  /** The hamburger and the menu carry `active` together. */
  predicate InSync(n: Nav)
  {
    n.hamburgerActive == n.menuActive
  }

  /** Both toggles flip both flags and both link clicks clear both, so the
      two never drift apart, whatever the events. */
  lemma {:induction false} MenuStaysInSync(n: Nav, events: seq<NavEvent>)
    requires InSync(n)
    ensures InSync(NavRun(n, events))
    ensures NavRun(n, events).wired == n.wired
    decreases |events|
  {
    if events != [] {
      MenuStaysInSync(NavStep(n, events[0]), events[1..]);
    }
  }

  /** Two presses of the hamburger restore the state; a menu link closes
      the menu for good, and a second one changes nothing. */
  lemma MenuClicks(n: Nav)
    ensures NavStep(NavStep(n, HamburgerClick), HamburgerClick) == n
    ensures n.wired ==> !NavStep(n, MenuLinkClick).menuActive && !NavStep(n, MenuLinkClick).hamburgerActive
    ensures NavStep(NavStep(n, MenuLinkClick), MenuLinkClick) == NavStep(n, MenuLinkClick)
    ensures !n.wired ==> NavStep(n, HamburgerClick) == n && NavStep(n, MenuLinkClick) == n
  {
  }

  /** The scroll positions of a sequence of scroll events. */
  function Scrolls(ys: seq<int>): seq<NavEvent>
  {
    seq(|ys|, k requires 0 <= k < |ys| => Scroll(ys[k]))
  }

  /** After any non-empty run of scroll events the navbar is determined by
      the last two positions alone: dense exactly when the last is beyond
      100, hidden exactly when it exceeds the one before it (or the
      position at start-up) and 200, and `lastScrollY` is the last. The
      menu is untouched. */
  lemma {:induction false} ScrollRule(n: Nav, ys: seq<int>)
    requires |ys| > 0
    ensures var r := NavRun(n, Scrolls(ys));
      var y := ys[|ys| - 1];
      var previous := if |ys| == 1 then n.lastScrollY else ys[|ys| - 2];
      (r.background == Opaque <==> y > 100) && r.background != BackgroundUnset &&
      (r.offset == Raised <==> y > previous && y > 200) && r.offset != OffsetUnset &&
      r.lastScrollY == y && r.blurred &&
      r.hamburgerActive == n.hamburgerActive && r.menuActive == n.menuActive && r.wired == n.wired
    decreases |ys|
  {
    var events := Scrolls(ys);
    var next := NavStep(n, events[0]);
    if |ys| > 1 {
      assert Scrolls(ys[1..]) == events[1..];
      ScrollRule(next, ys[1..]);
    }
  }

  /** Scrolling back up, or not moving, always shows the navbar. */
  lemma ScrollUpShows(n: Nav, y: int)
    requires y <= n.lastScrollY
    ensures NavStep(n, Scroll(y)).offset == Level
  {
  }

  /** The object `initNavigation` wires up. */
  class Navigation {
    const wired: bool
    var hamburgerActive: bool
    var menuActive: bool
    var background: Background
    var offset: Offset
    var blurred: bool
    var lastScrollY: int

    function Model(): Nav
      reads this
    {
      Nav(wired, hamburgerActive, menuActive, background, offset, blurred, lastScrollY)
    }

    /** `hamburger && navMenu` decides `wired`; the two `active` classes
        are those of the markup, since the script sets none at load; the
        inline styling starts unset, and `lastScrollY` starts at the
        position of the page when the script runs. */
    constructor (hamburgerAndMenu: bool, hamburgerMarkup: bool, menuMarkup: bool, scrollY: int)
      ensures Model() == Nav(hamburgerAndMenu, hamburgerMarkup, menuMarkup, BackgroundUnset, OffsetUnset, false, scrollY)
    {
      wired := hamburgerAndMenu;
      hamburgerActive, menuActive := hamburgerMarkup, menuMarkup;
      background, offset, blurred := BackgroundUnset, OffsetUnset, false;
      lastScrollY := scrollY;
    }

    method ClickHamburger()
      modifies this
      ensures Model() == NavStep(old(Model()), HamburgerClick)
    {
      if wired {
        hamburgerActive := !hamburgerActive;
        menuActive := !menuActive;
      }
    }

    method ClickMenuLink()
      modifies this
      ensures Model() == NavStep(old(Model()), MenuLinkClick)
    {
      if wired {
        hamburgerActive := false;
        menuActive := false;
      }
    }

    method OnScroll(currentScrollY: int)
      modifies this
      ensures Model() == NavStep(old(Model()), Scroll(currentScrollY))
    {
      if currentScrollY > 100 {
        background := Opaque;
      } else {
        background := Translucent;
      }
      blurred := true;
      if currentScrollY > lastScrollY && currentScrollY > 200 {
        offset := Raised;
      } else {
        offset := Level;
      }
      lastScrollY := currentScrollY;
    }
  }

  // ---------------------------------------------------------------------
  // Modals

  /** The inline `display` of a modal: unset, `block` or `none`. */
  datatype Display = DisplayUnset | Block | DisplayNone

  /** The inline `overflow` of the body: unset, `hidden` or `auto`. */
  datatype Overflow = OverflowUnset | Hidden | Auto

  /** The `project-type` select: the values of its options and its current
      value. */
  datatype Select = Select(options: seq<string>, value: string)

  /** The part of the document the modal functions touch: the ids of the
      `.modal` elements in document order with their display, the body's
      overflow, and the `project-type` select if there is one. */
  datatype Modals = Modals(ids: seq<string>, display: seq<Display>, overflow: Overflow, select: Option<Select>)

  predicate WellFormed(m: Modals)
  {
    |m.display| == |m.ids|
  }

  const ConsultationModal: string := "consultationModal"

  /** The id `openModal` looks up: its map sends the four service types to
      the consultation modal, and for any other key the lookup yields
      `undefined`, which `getElementById` reads as the id "undefined". */
  function OpenTarget(kind: string): (id: string)
    ensures id == ConsultationModal <==> kind in ["consultation", "industrial", "research", "training"]
  {
    if kind == "consultation" || kind == "industrial" || kind == "research" || kind == "training" then ConsultationModal
    else "undefined"
  }

  /** The id `closeModal` looks up: its map knows only "consultation". */
  function CloseTarget(kind: string): (id: string)
    ensures id == ConsultationModal <==> kind == "consultation"
  {
    if kind == "consultation" then ConsultationModal else "undefined"
  }

  /** Assigning a value to a select: it takes the value when an option has
      it, and otherwise no option is selected and its value reads "". */
  function Assign(s: Select, v: string): Select
  {
    s.(value := if v in s.options then v else "")
  }

  /** `openModal(kind)`. */
  function Open(m: Modals, kind: string): Modals
    requires WellFormed(m)
  {
    match Find(m.ids, OpenTarget(kind))
    case None => m
    case Some(i) =>
      var select := if kind != "consultation" && m.select.Some? then Some(Assign(m.select.value, kind)) else m.select;
      m.(display := m.display[i := Block], overflow := Hidden, select := select)
  }

  /** `closeModal(kind)`. */
  function Close(m: Modals, kind: string): Modals
    requires WellFormed(m)
  {
    match Find(m.ids, CloseTarget(kind))
    case None => m
    case Some(i) => m.(display := m.display[i := DisplayNone], overflow := Auto)
  }

  /** The Escape handler: every modal gets `display: none`. */
  function EscapeAll(m: Modals): Modals
  {
    m.(display := seq(|m.display|, k => DisplayNone))
  }

  /** A click whose target is the modal element itself (its backdrop)
      hides that modal. */
  function BackdropClick(m: Modals, i: nat, onBackdrop: bool): Modals
    requires WellFormed(m) && i < |m.ids|
  {
    if onBackdrop then m.(display := m.display[i := DisplayNone]) else m
  }

  /** A click on a modal's backdrop hides that modal and no other, and a
      click inside it changes nothing. */
  lemma BackdropHidesOnlyItself(m: Modals, i: nat, onBackdrop: bool)
    requires WellFormed(m) && i < |m.ids|
    ensures var r := BackdropClick(m, i, onBackdrop);
      WellFormed(r) && r.ids == m.ids && r.overflow == m.overflow && r.select == m.select &&
      r.display[i] == (if onBackdrop then DisplayNone else m.display[i]) &&
      forall k | 0 <= k < |m.display| && k != i :: r.display[k] == m.display[k]
  {
  }

  /** All four service types show the same modal, and the `project-type`
      select is prefilled exactly for the three that are not
      "consultation". */
  lemma ServicesOpenConsultation(m: Modals, kind: string)
    requires WellFormed(m) && ConsultationModal in m.ids
    requires kind in ["consultation", "industrial", "research", "training"]
    ensures var i := Find(m.ids, ConsultationModal).value;
      var r := Open(m, kind);
      r.ids == m.ids && r.display == m.display[i := Block] && r.overflow == Hidden
    ensures m.select.None? ==> Open(m, kind).select.None?
    ensures m.select.Some? ==>
      var s := m.select.value;
      Open(m, kind).select == Some(Select(s.options,
        if kind == "consultation" then s.value else if kind in s.options then kind else ""))
  {
  }

  /** `closeModal` with any other key than "consultation" changes nothing,
      unless a modal happens to have the id "undefined". */
  lemma CloseIgnoresOtherKeys(m: Modals, kind: string)
    requires WellFormed(m) && kind != "consultation" && "undefined" !in m.ids
    ensures Close(m, kind) == m
  {
  }

  /** Closing the consultation modal after opening it hides it again and
      sets the body's overflow to `auto`; the select keeps the value the
      opening gave it. */
  lemma OpenThenClose(m: Modals, kind: string)
    requires WellFormed(m) && ConsultationModal in m.ids
    requires kind in ["consultation", "industrial", "research", "training"]
    ensures var i := Find(m.ids, ConsultationModal).value;
      var r := Close(Open(m, kind), "consultation");
      r.display == m.display[i := DisplayNone] && r.overflow == Auto && r.select == Open(m, kind).select
  {
  }

  /** Escape hides every modal, keeps the body's overflow as it was (so a
      page whose modal was opened stays unscrollable), and pressing it again
      changes nothing. */
  lemma EscapeHidesAll(m: Modals, kind: string)
    requires WellFormed(m)
    ensures var r := EscapeAll(m);
      WellFormed(r) && (forall k | 0 <= k < |r.display| :: r.display[k] == DisplayNone) &&
      r.overflow == m.overflow && r.select == m.select && EscapeAll(r) == r
    ensures OpenTarget(kind) in m.ids ==> EscapeAll(Open(m, kind)).overflow == Hidden
  {
  }

  /** The modals of the page and the body's overflow. The display of each
      `.modal` is held in an array, in document order, as `querySelectorAll`
      returns them. */
  class ModalPage {
    const ids: seq<string>
    const display: array<Display>
    var overflow: Overflow
    var select: Option<Select>

    ghost predicate Valid()
      reads this
    {
      display.Length == |ids|
    }

    function Model(): Modals
      reads this, display
    {
      Modals(ids, display[..], overflow, select)
    }

    /** The `.modal` elements with the inline display their markup gives
        them (unset when it has no `style`); the script sets none at load. */
    constructor (ids: seq<string>, markup: seq<Display>, select: Option<Select>)
      requires |markup| == |ids|
      ensures Valid() && fresh(display)
      ensures Model() == Modals(ids, markup, OverflowUnset, select)
    {
      this.ids := ids;
      display := new Display[|ids|](k requires 0 <= k < |markup| => markup[k]);
      overflow := OverflowUnset;
      this.select := select;
    }

    method OpenModal(kind: string)
      requires Valid()
      modifies this, display
      ensures Valid() && Model() == Open(old(Model()), kind)
    {
      var found := Find(ids, OpenTarget(kind));
      if found.Some? {
        display[found.value] := Block;
        overflow := Hidden;
        if kind != "consultation" && select.Some? {
          select := Some(Assign(select.value, kind));
        }
      }
    }

    method CloseModal(kind: string)
      requires Valid()
      modifies this, display
      ensures Valid() && Model() == Close(old(Model()), kind)
    {
      var found := Find(ids, CloseTarget(kind));
      if found.Some? {
        display[found.value] := DisplayNone;
        overflow := Auto;
      }
    }

    /** The keydown handler for Escape: `forEach` over the modals. */
    method Escape()
      requires Valid()
      modifies display
      ensures Valid() && Model() == EscapeAll(old(Model()))
    {
      for k := 0 to display.Length
        invariant forall j | 0 <= j < k :: display[j] == DisplayNone
      {
        display[k] := DisplayNone;
      }
      assert display[..] == seq(display.Length, k => DisplayNone);
    }

    /** The click handler of modal `i`. */
    method Click(i: nat, onBackdrop: bool)
      requires Valid() && i < |ids|
      modifies display
      ensures Valid() && Model() == BackdropClick(old(Model()), i, onBackdrop)
    {
      if onBackdrop {
        display[i] := DisplayNone;
      }
    }
  }
}
