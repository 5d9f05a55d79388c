/** The single-page navigation of script.js: nav links and call-to-action
    buttons that switch the visible section, the mobile drawer with its
    menu icon, the header's `scrolled` class, and the 50 ms timers that
    activate a section after a click, modelled as a list of pending
    activations that timer ticks drain in order. */
module ViewRouter {
  import opened Wrappers
  import opened JsText

  /** The glyphs of the menu icon. */
  const ClosedIcon: string := "☰"
  const OpenIcon: string := "✕"

  /** An element carrying a `data-section` attribute, in document order:
      the attribute's value, its index among the nav links if it is one,
      and its index among the `.section` elements if it is one. */
  datatype Tagged = Tagged(section: string, link: Option<nat>, sectionAt: Option<nat>)

  /** The parts of the document that do not change: the `data-section`
      attribute of each nav link, the ids of the `.section` elements, and
      every element carrying `data-section`. */
  datatype Doc = Doc(linkAttrs: seq<Option<string>>, sectionIds: seq<string>, tagged: seq<Tagged>)

  /** The tagged elements that are nav links name valid links, and carry
      the same `data-section` value as that link; those that are sections
      name valid sections. */
  predicate DocWellFormed(d: Doc)
  {
    (forall p | 0 <= p < |d.tagged| :: d.tagged[p].link.Some? ==>
      d.tagged[p].link.value < |d.linkAttrs| && d.linkAttrs[d.tagged[p].link.value] == Some(d.tagged[p].section)) &&
    (forall p | 0 <= p < |d.tagged| :: d.tagged[p].sectionAt.Some? ==>
      d.tagged[p].sectionAt.value < |d.sectionIds|)
  }

  /** What the handlers change: the `active` class of each nav link and of
      each section, the elements outside both lists that a CTA marked
      active (positions in `Doc.tagged`), the drawer (`navMenu` active), the
      icon text, the header's `scrolled` class, `lastScrollY`, and the
      sections whose activation timers have not fired yet, oldest first. */
  datatype View = View(
    links: seq<bool>,
    sections: seq<bool>,
    extra: set<nat>,
    drawerOpen: bool,
    icon: string,
    headerScrolled: bool,
    lastScrollY: int,
    pending: seq<nat>)

  predicate Fits(d: Doc, v: View)
  {
    |v.links| == |d.linkAttrs| && |v.sections| == |d.sectionIds| &&
    forall k | 0 <= k < |v.pending| :: v.pending[k] < |v.sections|
  }

  /** `getElementById(link.getAttribute("data-section"))`: a missing
      attribute is `null`, which is looked up as the id "null". */
  function LinkTarget(attr: Option<string>): string
  {
    if attr.Some? then attr.value else "null"
  }

  /** `document.querySelector('[data-section="…"]')`: the first element
      carrying the value. */
  function FirstTagged(tagged: seq<Tagged>, section: string): (r: Option<nat>)
    ensures r.None? <==> forall p | 0 <= p < |tagged| :: tagged[p].section != section
    ensures r.Some? ==> r.value < |tagged| && tagged[r.value].section == section
    ensures r.Some? ==> forall p | 0 <= p < r.value :: tagged[p].section != section
  {
    if tagged == [] then None
    else if tagged[0].section == section then Some(0)
    else
      match FirstTagged(tagged[1..], section)
      case None => None
      case Some(p) => Some(p + 1)
  }

  // ---------------------------------------------------------------------
  // The handlers, one function each

  predicate IconInSync(v: View)
  {
    v.icon == if v.drawerOpen then OpenIcon else ClosedIcon
  }

  /** Both `forEach` loops: no link and no section is active. */
  function ClearAll(v: View): (r: View)
    ensures |r.links| == |v.links| && |r.sections| == |v.sections|
    ensures forall k | 0 <= k < |r.links| :: !r.links[k]
    ensures forall k | 0 <= k < |r.sections| :: !r.sections[k]
  {
    v.(links := seq(|v.links|, k => false), sections := seq(|v.sections|, k => false))
  }

  /** The drawer is closed and the icon shows the closed glyph. */
  function CloseDrawer(v: View): View
  {
    v.(drawerOpen := false, icon := ClosedIcon)
  }

  predicate NavTargetExists(d: Doc, i: nat)
  {
    i < |d.linkAttrs| && LinkTarget(d.linkAttrs[i]) in d.sectionIds
  }

  /** The click handler of nav link `i`. */
  function NavClick(d: Doc, v: View, i: nat): View
    requires Fits(d, v) && NavTargetExists(d, i)
  {
    var target := Find(d.sectionIds, LinkTarget(d.linkAttrs[i])).value;
    var cleared := ClearAll(v);
    CloseDrawer(cleared.(links := cleared.links[i := true], pending := v.pending + [target]))
  }

  /** The menu button's handler: the drawer flips and the icon follows the
      new state. */
  function Toggle(v: View): View
  {
    v.(drawerOpen := !v.drawerOpen, icon := if !v.drawerOpen then OpenIcon else ClosedIcon)
  }

  /** The document's click handler, reached last by every click: a click
      outside `.nav-container` closes the drawer. */
  function DocumentClick(v: View, insideNav: bool): View
  {
    if insideNav then v else CloseDrawer(v)
  }

  /** The document's keydown handler. */
  function EscapeKey(v: View, key: string): View
  {
    if key == "Escape" then CloseDrawer(v) else v
  }

  /** The window's scroll handler. */
  function Scroll(v: View, y: int): View
  {
    v.(headerScrolled := y > 50, lastScrollY := y)
  }

  /** A `data-section` value JavaScript treats as true: present and not
      empty. */
  predicate Truthy(attr: Option<string>)
  {
    attr.Some? && attr.value != ""
  }

  predicate CtaTargetExists(d: Doc, attr: Option<string>)
  {
    Truthy(attr) ==> attr.value in d.sectionIds
  }

  /** The first element carrying the section's `data-section` gets
      `active`: a nav link in the link list, a `.section` in the section
      list, any other element in `extra`. */
  function MarkTagged(d: Doc, v: View, section: string): View
    requires DocWellFormed(d) && Fits(d, v)
  {
    match FirstTagged(d.tagged, section)
    case None => v
    case Some(p) =>
      var t := d.tagged[p];
      var v1 := if t.link.Some? then v.(links := v.links[t.link.value := true]) else v;
      var v2 := if t.sectionAt.Some? then v1.(sections := v1.sections[t.sectionAt.value := true]) else v1;
      if t.link.None? && t.sectionAt.None? then v2.(extra := v2.extra + {p}) else v2
  }

  /** The click handler of a CTA button whose `data-section` is `attr`. */
  function CtaClick(d: Doc, v: View, attr: Option<string>): View
    requires DocWellFormed(d) && Fits(d, v) && CtaTargetExists(d, attr)
  {
    if !Truthy(attr) then v
    else
      var target := Find(d.sectionIds, attr.value).value;
      var marked := MarkTagged(d, ClearAll(v), attr.value);
      marked.(pending := v.pending + [target])
  }

  /** The earliest pending timer fires and its section becomes active. */
  function Tick(v: View): View
    requires forall k | 0 <= k < |v.pending| :: v.pending[k] < |v.sections|
  {
    if v.pending == [] then v
    else v.(sections := v.sections[v.pending[0] := true], pending := v.pending[1..])
  }

  /** Every pending timer fires, in the order of the clicks. */
  function Flush(v: View): (r: View)
    requires forall k | 0 <= k < |v.pending| :: v.pending[k] < |v.sections|
    ensures r.pending == [] && |r.sections| == |v.sections|
    ensures r == v.(sections := r.sections, pending := [])
    ensures forall k | 0 <= k < |v.sections| :: r.sections[k] <==> v.sections[k] || k in v.pending
    decreases |v.pending|
  {
    if v.pending == [] then v
    else
      var next := Tick(v);
      var r := Flush(next);
      assert forall k | 0 <= k < |v.sections| :: k in v.pending <==> k == v.pending[0] || k in next.pending by {
        assert v.pending == [v.pending[0]] + next.pending;
      }
      r
  }

  // ---------------------------------------------------------------------
  // Events

  /** A user action. Every click also reaches the document's handler,
      after the element's own, and `insideNav` says whether its target lies
      inside `.nav-container`. */
  datatype Event =
    | NavLinkClick(i: nat, insideNav: bool)
    | MenuButtonClick(insideNav: bool)
    | CtaButtonClick(attr: Option<string>, insideNav: bool)
    | OtherClick(insideNav: bool)
    | Key(key: string)
    | WindowScroll(y: int)
    | TimerTick

  predicate Allowed(d: Doc, e: Event)
  {
    match e
    case NavLinkClick(i, _) => NavTargetExists(d, i)
    case CtaButtonClick(attr, _) => CtaTargetExists(d, attr)
    case _ => true
  }

  function Step(d: Doc, v: View, e: Event): View
    requires DocWellFormed(d) && Fits(d, v) && Allowed(d, e)
  {
    match e
    case NavLinkClick(i, inside) => DocumentClick(NavClick(d, v, i), inside)
    case MenuButtonClick(inside) => DocumentClick(Toggle(v), inside)
    case CtaButtonClick(attr, inside) => DocumentClick(CtaClick(d, v, attr), inside)
    case OtherClick(inside) => DocumentClick(v, inside)
    case Key(key) => EscapeKey(v, key)
    case WindowScroll(y) => Scroll(v, y)
    case TimerTick => Tick(v)
  }

  /** Every step keeps the view fitting the document. */
  lemma StepFits(d: Doc, v: View, e: Event)
    requires DocWellFormed(d) && Fits(d, v) && Allowed(d, e)
    ensures Fits(d, Step(d, v, e))
  {
    match e
    case NavLinkClick(i, _) =>
    case CtaButtonClick(attr, _) =>
      if Truthy(attr) {
        var marked := MarkTagged(d, ClearAll(v), attr.value);
        assert |marked.sections| == |v.sections|;
      }
    case TimerTick =>
      if v.pending != [] {
        assert forall k | 0 <= k < |v.pending| - 1 :: v.pending[1..][k] == v.pending[k + 1];
      }
    case _ =>
  }

  predicate AllAllowed(d: Doc, events: seq<Event>)
  {
    forall k | 0 <= k < |events| :: Allowed(d, events[k])
  }

  function Run(d: Doc, v: View, events: seq<Event>): (r: View)
    requires DocWellFormed(d) && Fits(d, v) && AllAllowed(d, events)
    ensures Fits(d, r)
    decreases |events|
  {
    if events == [] then v
    else
      StepFits(d, v, events[0]);
      assert AllAllowed(d, events[1..]) by {
        forall k | 0 <= k < |events| - 1 ensures Allowed(d, events[1..][k]) {
          assert events[1..][k] == events[k + 1];
        }
      }
      Run(d, Step(d, v, events[0]), events[1..])
  }

  // ---------------------------------------------------------------------
  // Properties

  /** Right after a nav-link click no section is active, the clicked link
      is the only active one, the drawer is closed with the closed glyph,
      and the link's section is queued behind the timers already pending. */
  lemma NavClickImmediate(d: Doc, v: View, i: nat, insideNav: bool)
    requires DocWellFormed(d) && Fits(d, v) && NavTargetExists(d, i)
    ensures var r := Step(d, v, NavLinkClick(i, insideNav));
      var target := Find(d.sectionIds, LinkTarget(d.linkAttrs[i])).value;
      (forall k | 0 <= k < |r.sections| :: !r.sections[k]) &&
      (forall k | 0 <= k < |r.links| :: r.links[k] <==> k == i) &&
      !r.drawerOpen && r.icon == ClosedIcon &&
      r.pending == v.pending + [target] && d.sectionIds[target] == LinkTarget(d.linkAttrs[i]) &&
      r.extra == v.extra && r.headerScrolled == v.headerScrolled
  {
  }

  /** With no timer pending, a nav-link click followed by its timer leaves
      exactly its own section active. */
  lemma NavClickSettles(d: Doc, v: View, i: nat, insideNav: bool)
    requires DocWellFormed(d) && Fits(d, v) && NavTargetExists(d, i) && v.pending == []
    ensures var r := Flush(Step(d, v, NavLinkClick(i, insideNav)));
      forall k | 0 <= k < |r.sections| :: r.sections[k] <==> d.sectionIds[k] == LinkTarget(d.linkAttrs[i]) && LinkTarget(d.linkAttrs[i]) !in d.sectionIds[..k]
  {
    var clicked := Step(d, v, NavLinkClick(i, insideNav));
    var target := Find(d.sectionIds, LinkTarget(d.linkAttrs[i])).value;
    assert clicked.pending == [target];
    forall k | 0 <= k < |d.sectionIds|
      ensures d.sectionIds[k] == LinkTarget(d.linkAttrs[i]) && LinkTarget(d.linkAttrs[i]) !in d.sectionIds[..k] <==> k == target
    {
      if k < target {
        assert d.sectionIds[..target][k] == d.sectionIds[k];
      } else if k > target {
        assert d.sectionIds[..k][target] == d.sectionIds[target];
      }
    }
  }

  /** Two nav-link clicks before either timer fires: the timers are not
      cancelled, so both sections end up active while only the second link
      is. */
  lemma OverlappingClicks(d: Doc, v: View, i: nat, j: nat)
    requires DocWellFormed(d) && Fits(d, v) && NavTargetExists(d, i) && NavTargetExists(d, j) && v.pending == []
    ensures var first := Step(d, v, NavLinkClick(i, true));
      var r := Flush(Step(d, first, NavLinkClick(j, true)));
      var ti := Find(d.sectionIds, LinkTarget(d.linkAttrs[i])).value;
      var tj := Find(d.sectionIds, LinkTarget(d.linkAttrs[j])).value;
      (forall k | 0 <= k < |r.sections| :: r.sections[k] <==> k == ti || k == tj) &&
      (forall k | 0 <= k < |r.links| :: r.links[k] <==> k == j)
  {
    var first := Step(d, v, NavLinkClick(i, true));
    var second := Step(d, first, NavLinkClick(j, true));
    var ti := Find(d.sectionIds, LinkTarget(d.linkAttrs[i])).value;
    var tj := Find(d.sectionIds, LinkTarget(d.linkAttrs[j])).value;
    assert second.pending == [ti, tj];
  }

  /** Clicking the same link again once its timer has fired changes
      nothing. */
  lemma RepeatedClickIdempotent(d: Doc, v: View, i: nat, insideNav: bool)
    requires DocWellFormed(d) && Fits(d, v) && NavTargetExists(d, i) && v.pending == []
    ensures var once := Flush(Step(d, v, NavLinkClick(i, insideNav)));
      Flush(Step(d, once, NavLinkClick(i, insideNav))) == once
  {
    var once := Flush(Step(d, v, NavLinkClick(i, insideNav)));
    var twice := Flush(Step(d, once, NavLinkClick(i, insideNav)));
    assert twice.links == once.links;
    assert twice.sections == once.sections;
  }

  /** Pressing the menu button twice restores the drawer and the icon
      exactly when the icon was in step with the drawer to begin with. */
  lemma ToggleTwice(v: View)
    ensures Toggle(Toggle(v)) == v <==> IconInSync(v)
    ensures IconInSync(Toggle(v))
  {
  }

  /** A click outside the navigation and the Escape key force the drawer
      closed, whatever its state, and doing it again changes nothing. */
  lemma CloseIdempotent(d: Doc, v: View, e: Event)
    requires DocWellFormed(d) && Fits(d, v)
    requires e == OtherClick(false) || e == Key("Escape")
    ensures var r := Step(d, v, e);
      !r.drawerOpen && r.icon == ClosedIcon && Step(d, r, e) == r &&
      r == v.(drawerOpen := false, icon := ClosedIcon)
  {
  }

  /** Every event keeps the icon in step with the drawer. */
  lemma {:induction false} IconStaysInSync(d: Doc, v: View, events: seq<Event>)
    requires DocWellFormed(d) && Fits(d, v) && AllAllowed(d, events) && IconInSync(v)
    ensures IconInSync(Run(d, v, events))
    decreases |events|
  {
    if events != [] {
      StepFits(d, v, events[0]);
      var next := Step(d, v, events[0]);
      assert IconInSync(next);
      assert AllAllowed(d, events[1..]) by {
        forall k | 0 <= k < |events| - 1 ensures Allowed(d, events[1..][k]) {
          assert events[1..][k] == events[k + 1];
        }
      }
      IconStaysInSync(d, next, events[1..]);
    }
  }

  /** The header's class follows the latest scroll position alone. */
  lemma {:induction false} HeaderFollowsLastScroll(d: Doc, v: View, events: seq<Event>)
    requires DocWellFormed(d) && Fits(d, v) && AllAllowed(d, events)
    requires |events| > 0 && events[|events| - 1].WindowScroll?
    ensures var y := events[|events| - 1].y;
      Run(d, v, events).headerScrolled == (y > 50) && Run(d, v, events).lastScrollY == y
    decreases |events|
  {
    StepFits(d, v, events[0]);
    var next := Step(d, v, events[0]);
    assert AllAllowed(d, events[1..]) by {
      forall k | 0 <= k < |events| - 1 ensures Allowed(d, events[1..][k]) {
        assert events[1..][k] == events[k + 1];
      }
    }
    if |events| > 1 {
      HeaderFollowsLastScroll(d, next, events[1..]);
    }
  }

  /** A CTA without a `data-section` value does nothing of its own: only
      the document's handler runs. */
  lemma CtaWithoutSection(d: Doc, v: View, attr: Option<string>, insideNav: bool)
    requires DocWellFormed(d) && Fits(d, v) && !Truthy(attr)
    ensures Step(d, v, CtaButtonClick(attr, insideNav)) == DocumentClick(v, insideNav)
  {
  }

  /** A CTA with a `data-section` value clears every link and section,
      marks the first element carrying that value, queues the section, and
      leaves the drawer alone (only a click outside the navigation closes
      it, through the document's handler). */
  lemma CtaWithSection(d: Doc, v: View, section: string)
    requires DocWellFormed(d) && Fits(d, v) && section != "" && section in d.sectionIds
    ensures var r := CtaClick(d, v, Some(section));
      var target := Find(d.sectionIds, section).value;
      var first := FirstTagged(d.tagged, section);
      (forall k | 0 <= k < |r.sections| :: r.sections[k] <==> first.Some? && d.tagged[first.value].sectionAt == Some(k)) &&
      (forall k | 0 <= k < |r.links| :: r.links[k] <==> first.Some? && d.tagged[first.value].link == Some(k)) &&
      r.extra == (if first.Some? && d.tagged[first.value].link.None? && d.tagged[first.value].sectionAt.None?
        then v.extra + {first.value} else v.extra) &&
      r.pending == v.pending + [target] &&
      r.drawerOpen == v.drawerOpen && r.icon == v.icon
  {
  }

  // ---------------------------------------------------------------------
  // The page

  /** The live page: the `active` classes of the nav links and of the
      sections are arrays, as the handlers walk the `NodeList`s in place. */
  class Router {
    const doc: Doc
    const links: array<bool>
    const sections: array<bool>
    var extra: set<nat>
    var drawerOpen: bool
    var icon: string
    var headerScrolled: bool
    var lastScrollY: int
    var pending: seq<nat>

    ghost predicate Valid()
      reads this, links, sections
    {
      links != sections && DocWellFormed(doc) && Fits(doc, Model())
    }

    function Model(): View
      reads this, links, sections
    {
      View(links[..], sections[..], extra, drawerOpen, icon, headerScrolled, lastScrollY, pending)
    }

    /** The page after `DOMContentLoaded`: the script sets no class at
        load, so the classes and the icon are whatever the markup says;
        no timer is pending yet, and `lastScrollY` is the page's position. */
    constructor (doc: Doc, markup: View, scrollY: int)
      requires DocWellFormed(doc)
      requires |markup.links| == |doc.linkAttrs| && |markup.sections| == |doc.sectionIds|
      ensures Valid() && fresh(links) && fresh(sections)
      ensures Model() == markup.(lastScrollY := scrollY, pending := [])
    {
      this.doc := doc;
      links := new bool[|markup.links|](k requires 0 <= k < |markup.links| => markup.links[k]);
      sections := new bool[|markup.sections|](k requires 0 <= k < |markup.sections| => markup.sections[k]);
      extra := markup.extra;
      drawerOpen := markup.drawerOpen;
      icon := markup.icon;
      headerScrolled := markup.headerScrolled;
      lastScrollY := scrollY;
      pending := [];
    }

    /** `navLinks.forEach(remove)` and `sections.forEach(remove)`. */
    method ResetActive()
      requires Valid()
      modifies links, sections
      ensures Valid() && Model() == ClearAll(old(Model()))
    {
      for k := 0 to links.Length
        invariant forall j | 0 <= j < k :: !links[j]
        invariant sections[..] == old(sections[..])
      {
        links[k] := false;
      }
      for k := 0 to sections.Length
        invariant forall j | 0 <= j < k :: !sections[j]
        invariant forall j | 0 <= j < links.Length :: !links[j]
      {
        sections[k] := false;
      }
      assert links[..] == seq(links.Length, k => false);
      assert sections[..] == seq(sections.Length, k => false);
    }

    /** The document's click handler, reached after the element's own. */
    method BubbleToDocument(insideNav: bool)
      modifies this
      ensures Model() == DocumentClick(old(Model()), insideNav)
    {
      if !insideNav {
        drawerOpen := false;
        icon := ClosedIcon;
      }
    }

    method ClickNavLink(i: nat, insideNav: bool)
      requires Valid() && NavTargetExists(doc, i)
      modifies this, links, sections
      ensures Valid() && Model() == Step(doc, old(Model()), NavLinkClick(i, insideNav))
    {
      ResetActive();
      links[i] := true;
      var target := Find(doc.sectionIds, LinkTarget(doc.linkAttrs[i])).value;
      pending := pending + [target];
      drawerOpen := false;
      icon := ClosedIcon;
      BubbleToDocument(insideNav);
    }

    method ClickMenuButton(insideNav: bool)
      requires Valid()
      modifies this
      ensures Valid() && Model() == Step(doc, old(Model()), MenuButtonClick(insideNav))
    {
      drawerOpen := !drawerOpen;
      icon := if drawerOpen then OpenIcon else ClosedIcon;
      BubbleToDocument(insideNav);
    }

    method ClickCta(attr: Option<string>, insideNav: bool)
      requires Valid() && CtaTargetExists(doc, attr)
      modifies this, links, sections
      ensures Valid() && Model() == Step(doc, old(Model()), CtaButtonClick(attr, insideNav))
    {
      if Truthy(attr) {
        ghost var before := Model();
        ResetActive();
        var first := FirstTagged(doc.tagged, attr.value);
        if first.Some? {
          var t := doc.tagged[first.value];
          if t.link.Some? {
            links[t.link.value] := true;
          }
          if t.sectionAt.Some? {
            sections[t.sectionAt.value] := true;
          }
          if t.link.None? && t.sectionAt.None? {
            extra := extra + {first.value};
          }
        }
        var target := Find(doc.sectionIds, attr.value).value;
        pending := pending + [target];
        assert Model() == CtaClick(doc, before, attr);
      }
      BubbleToDocument(insideNav);
    }

    method ClickElsewhere(insideNav: bool)
      requires Valid()
      modifies this
      ensures Valid() && Model() == Step(doc, old(Model()), OtherClick(insideNav))
    {
      BubbleToDocument(insideNav);
    }

    method KeyDown(key: string)
      requires Valid()
      modifies this
      ensures Valid() && Model() == Step(doc, old(Model()), Key(key))
    {
      if key == "Escape" {
        drawerOpen := false;
        icon := ClosedIcon;
      }
    }

    method OnScroll(currentScrollY: int)
      requires Valid()
      modifies this
      ensures Valid() && Model() == Step(doc, old(Model()), WindowScroll(currentScrollY))
    {
      headerScrolled := currentScrollY > 50;
      lastScrollY := currentScrollY;
    }

    /** The earliest pending timer fires. */
    method FireTimer()
      requires Valid()
      modifies this, sections
      ensures Valid() && Model() == Step(doc, old(Model()), TimerTick)
    {
      if pending != [] {
        sections[pending[0]] := true;
        pending := pending[1..];
      }
      StepFits(doc, old(Model()), TimerTick);
    }

    /** Every pending timer fires in turn. */
    method FireAllTimers()
      requires Valid()
      modifies this, sections
      ensures Valid() && Model() == Flush(old(Model()))
    {
      while pending != []
        invariant Valid() && Flush(Model()) == Flush(old(Model()))
        decreases |pending|
      {
        FireTimer();
      }
    }
  }
}
