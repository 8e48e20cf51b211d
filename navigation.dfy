/**
  The page's navigation behaviour (docs/js/main.js): scroll-spy highlighting of the
  navigation links, the mobile navigation panel with its toggle button, smooth-scroll
  anchor clicks and the debounced resize handler.

  DOM reads are parameters: positions are integers, what a click hit is a pair of
  booleans, what `querySelector` found is an Option. The panel's behaviour is given as
  a pure transition function over events (Step); the class Page holds the state the
  handlers change in place and each of its methods is proved against Step.
 */
module Navigation {
  import opened Wrappers

  /** Widths at or below this are the mobile layout. */
  const BREAKPOINT: int := 768

  /** A section counts as reached once the page is scrolled to 100px above its top. */
  const SPY_OFFSET: int := 100

  /** An anchor click scrolls its target to 20px below the top of the viewport. */
  const ANCHOR_OFFSET: int := 20

  // ---------------------------------------------------------------------------
  // Scroll-spy

  /** A `section` element as the scroll handler reads it: id attribute and offsetTop. */
  datatype SectionBox = SectionBox(id: Option<string>, top: int)

  /** How a template literal renders an attribute value: a missing one renders as "null". */
  function Interpolated(attr: Option<string>): string {
    match attr
    case Some(s) => s
    case None => "null"
  }

  predicate Passed(s: SectionBox, pageY: int) {
    pageY >= s.top - SPY_OFFSET
  }

  /**
    The value `currentSection` ends with: the id attribute of the last section, in
    document order, that the page has scrolled past; "" when there is none.
   */
  function Spied(sections: seq<SectionBox>, pageY: int): (r: Option<string>)
    ensures r == Some("") || exists k :: 0 <= k < |sections| && Passed(sections[k], pageY) && r == sections[k].id
  {
    if sections == [] then Some("")
    else if Passed(sections[|sections| - 1], pageY) then sections[|sections| - 1].id
    else Spied(sections[..|sections| - 1], pageY)
  }

  /** Spied is "" when no section has been scrolled past. */
  lemma {:induction false} SpiedNonePassed(sections: seq<SectionBox>, pageY: int)
    requires forall k :: 0 <= k < |sections| ==> !Passed(sections[k], pageY)
    ensures Spied(sections, pageY) == Some("")
  {
    if sections != [] {
      var init := sections[..|sections| - 1];
      assert forall k :: 0 <= k < |init| ==> init[k] == sections[k];
      SpiedNonePassed(init, pageY);
    }
  }

  /** Spied is the id of section k when k is passed and no later section is. */
  lemma {:induction false} SpiedLastPassed(sections: seq<SectionBox>, pageY: int, k: nat)
    requires k < |sections| && Passed(sections[k], pageY)
    requires forall j :: k < j < |sections| ==> !Passed(sections[j], pageY)
    ensures Spied(sections, pageY) == sections[k].id
  {
    var n := |sections|;
    if k < n - 1 {
      var init := sections[..n - 1];
      assert forall j :: 0 <= j < |init| ==> init[j] == sections[j];
      SpiedLastPassed(init, pageY, k);
    }
  }

  /** Sections at 0, 500 and 1000, scrolled to 550: the second one is current. */
  lemma SpiedExample()
    ensures Spied([SectionBox(Some("a"), 0), SectionBox(Some("b"), 500), SectionBox(Some("c"), 1000)], 550)
      == Some("b")
  {
  }

  /** The loop of highlightActiveSection that walks the sections in document order. */
  method CurrentSection(sections: seq<SectionBox>, pageY: int) returns (current: Option<string>)
    ensures current == Spied(sections, pageY)
  {
    current := Some("");
    var i := 0;
    while i < |sections|
      invariant 0 <= i <= |sections|
      invariant current == Spied(sections[..i], pageY)
    {
      assert sections[..i + 1][..i] == sections[..i];
      if pageY >= sections[i].top - SPY_OFFSET {
        current := sections[i].id;
      }
      i := i + 1;
    }
    assert sections[..i] == sections;
  }

  /** Whether a navigation link's href attribute is "#" followed by the current section. */
  predicate Matches(href: Option<string>, current: Option<string>) {
    href == Some("#" + Interpolated(current))
  }

  /** The active flags the navigation links are left with for a given current section. */
  function ActiveFlags(hrefs: seq<Option<string>>, current: Option<string>): seq<bool> {
    seq(|hrefs|, i requires 0 <= i < |hrefs| => Matches(hrefs[i], current))
  }

  /**
    With distinct hrefs at most one link is left active, and one is exactly when some
    link points at the current section.
   */
  lemma ActiveLinkUnique(hrefs: seq<Option<string>>, current: Option<string>)
    requires forall i, j :: 0 <= i < j < |hrefs| ==> hrefs[i] != hrefs[j]
    ensures var r := ActiveFlags(hrefs, current);
      && (forall i, j :: 0 <= i < |r| && 0 <= j < |r| && r[i] && r[j] ==> i == j)
      && ((exists i :: 0 <= i < |r| && r[i]) <==> Some("#" + Interpolated(current)) in hrefs)
  {
    var r := ActiveFlags(hrefs, current);
    if Some("#" + Interpolated(current)) in hrefs {
      var k :| 0 <= k < |hrefs| && hrefs[k] == Some("#" + Interpolated(current));
      assert r[k];
    }
  }

  /** Scrolled to 550 over those sections, only the link to the second one is active. */
  lemma ScrollExample()
    ensures ActiveFlags([Some("#a"), Some("#b"), Some("#c")],
      Spied([SectionBox(Some("a"), 0), SectionBox(Some("b"), 500), SectionBox(Some("c"), 1000)], 550))
      == [false, true, false]
  {
    SpiedExample();
    var hrefs := [Some("#a"), Some("#b"), Some("#c")];
    var f := ActiveFlags(hrefs, Some("b"));
    assert "#" + "b" == "#b";
    assert "#a"[1] != "#b"[1] && "#c"[1] != "#b"[1];
    assert f[0] == false && f[1] == true && f[2] == false;
  }

  // ---------------------------------------------------------------------------
  // The mobile navigation panel

  /** The toggle button's glyph. */
  datatype Icon = Bars | Times

  /** The sidebar's `active` class, the toggle's glyph and whether a resize timer is pending. */
  datatype Panel = Panel(active: bool, icon: Icon, resizePending: bool)

  /** The events the panel's handlers react to, with what they read from the page. */
  datatype Event =
    | ToggleClick
    | DocumentClick(width: int, inSidebar: bool, inToggle: bool)
    | AnchorClick(width: int, targetFound: bool)
    | Resize
    | ResizeTimerFires(width: int)

  /** The toggle shows the close glyph exactly when the panel is open. */
  predicate IconMirrors(p: Panel) {
    p.icon == (if p.active then Times else Bars)
  }

  function Closed(p: Panel): Panel {
    p.(active := false, icon := Bars)
  }

  function Step(p: Panel, e: Event): Panel {
    match e
    case ToggleClick =>
      var open := !p.active;
      p.(active := open, icon := if open then Times else Bars)
    case DocumentClick(width, inSidebar, inToggle) =>
      if width <= BREAKPOINT && !inSidebar && !inToggle && p.active then Closed(p) else p
    case AnchorClick(width, targetFound) =>
      if targetFound && width <= BREAKPOINT then Closed(p) else p
    case Resize =>
      p.(resizePending := true)
    case ResizeTimerFires(width) =>
      if !p.resizePending then p
      else if width > BREAKPOINT then Closed(p).(resizePending := false)
      else p.(resizePending := false)
  }

  /** The panel after a sequence of events, in order. */
  function Run(p: Panel, events: seq<Event>): Panel
    decreases events
  {
    if events == [] then p else Run(Step(p, events[0]), events[1..])
  }

  /** A toggle click flips the panel and, from any state, leaves the glyph mirroring it. */
  lemma ToggleFlips(p: Panel)
    ensures Step(p, ToggleClick).active == !p.active
    ensures IconMirrors(Step(p, ToggleClick))
  {
  }

  /** An outside click changes the panel exactly when it closes an open panel on a narrow page. */
  lemma DocumentClickCloses(p: Panel, width: int, inSidebar: bool, inToggle: bool)
    ensures var q := Step(p, DocumentClick(width, inSidebar, inToggle));
      && (q != p <==> width <= BREAKPOINT && !inSidebar && !inToggle && p.active)
      && (q != p ==> !q.active)
  {
  }

  /** An anchor click with no target changes nothing; with one, it closes the panel when narrow. */
  lemma AnchorClickCloses(p: Panel, width: int, targetFound: bool)
    ensures !targetFound ==> Step(p, AnchorClick(width, false)) == p
    ensures Step(p, AnchorClick(width, targetFound)).active == (p.active && !(targetFound && width <= BREAKPOINT))
  {
  }

  /** Every handler keeps the glyph mirroring the panel. */
  lemma StepKeepsIconMirror(p: Panel, e: Event)
    requires IconMirrors(p)
    ensures IconMirrors(Step(p, e))
  {
  }

  lemma {:induction false} RunKeepsIconMirror(p: Panel, events: seq<Event>)
    requires IconMirrors(p)
    ensures IconMirrors(Run(p, events))
    decreases events
  {
    if events != [] {
      StepKeepsIconMirror(p, events[0]);
      RunKeepsIconMirror(Step(p, events[0]), events[1..]);
    }
  }

  lemma {:induction false} RunConcat(p: Panel, xs: seq<Event>, ys: seq<Event>)
    ensures Run(p, xs + ys) == Run(Run(p, xs), ys)
    decreases xs
  {
    if xs == [] {
      assert xs + ys == ys;
    } else {
      assert (xs + ys)[0] == xs[0];
      assert (xs + ys)[1..] == xs[1..] + ys;
      RunConcat(Step(p, xs[0]), xs[1..], ys);
    }
  }

  function Resizes(k: nat): seq<Event> {
    seq(k, _ => Resize)
  }

  /** However many resize events arrive, one timer is pending afterwards, and nothing else moved. */
  lemma {:induction false} ResizesOnlyArm(p: Panel, k: nat)
    requires k > 0
    ensures Run(p, Resizes(k)) == p.(resizePending := true)
    decreases k
  {
    if k > 1 {
      assert Resizes(k)[0] == Resize;
      assert Resizes(k)[1..] == Resizes(k - 1);
      ResizesOnlyArm(p.(resizePending := true), k - 1);
    }
  }

  /**
    Debounce: a burst of resizes followed by the timer acts once, on the width read when
    the timer fires, and closes the panel exactly when that width is above the breakpoint;
    a later firing with nothing pending changes nothing.
   */
  lemma ResizeBurst(p: Panel, k: nat, width: int, later: int)
    requires k > 0
    ensures var q := Run(p, Resizes(k) + [ResizeTimerFires(width)]);
      && !q.resizePending
      && q.active == (p.active && width <= BREAKPOINT)
      && Step(q, ResizeTimerFires(later)) == q
  {
    RunConcat(p, Resizes(k), [ResizeTimerFires(width)]);
    ResizesOnlyArm(p, k);
  }

  // ---------------------------------------------------------------------------
  // The page's state and its handlers

  class Page {
    const sections: seq<SectionBox>       // the `section` elements present at load
    const navHrefs: seq<Option<string>>   // href attributes of the `.nav-links a` elements
    const navActive: array<bool>          // whether each of those links has class `active`
    var sidebarActive: bool
    var icon: Icon
    var resizePending: bool
    var scrollRequest: Option<int>         // where the last scrollTo asked to go

    ghost predicate Valid()
      reads this
    {
      navActive.Length == |navHrefs|
    }

    function PanelState(): Panel
      reads this
    {
      Panel(sidebarActive, icon, resizePending)
    }

    /**
      The DOMContentLoaded handler: the toggle is created with the bars glyph, the
      sidebar keeps whatever class it was served with, and the links are highlighted once.
     */
    constructor (sections: seq<SectionBox>, navHrefs: seq<Option<string>>, sidebarActive: bool, pageY: int)
      ensures Valid()
      ensures this.sections == sections && this.navHrefs == navHrefs
      ensures PanelState() == Panel(sidebarActive, Bars, false)
      ensures !sidebarActive ==> IconMirrors(PanelState())
      ensures scrollRequest == None
      ensures fresh(navActive)
      ensures navActive[..] == ActiveFlags(navHrefs, Spied(sections, pageY))
    {
      this.sections := sections;
      this.navHrefs := navHrefs;
      this.navActive := new bool[|navHrefs|];
      this.sidebarActive := sidebarActive;
      this.icon := Bars;
      this.resizePending := false;
      this.scrollRequest := None;
      new;
      HighlightActiveSection(pageY);
    }

    /** highlightActiveSection: exactly the links to the current section become active. */
    method HighlightActiveSection(pageY: int)
      requires Valid()
      modifies navActive
      ensures navActive[..] == ActiveFlags(navHrefs, Spied(sections, pageY))
    {
      var current := CurrentSection(sections, pageY);
      var i := 0;
      while i < navActive.Length
        invariant 0 <= i <= navActive.Length
        invariant forall j :: 0 <= j < i ==> navActive[j] == Matches(navHrefs[j], current)
      {
        navActive[i] := Matches(navHrefs[i], current);
        i := i + 1;
      }
    }

    /** The toggle button's click handler. */
    method ToggleClick()
      modifies this`sidebarActive, this`icon
      ensures PanelState() == Step(old(PanelState()), Event.ToggleClick)
    {
      sidebarActive := !sidebarActive;
      icon := if sidebarActive then Times else Bars;
    }

    /** The document's click handler: closes the panel on a click outside it on a narrow page. */
    method DocumentClick(width: int, inSidebar: bool, inToggle: bool)
      modifies this`sidebarActive, this`icon
      ensures PanelState() == Step(old(PanelState()), Event.DocumentClick(width, inSidebar, inToggle))
    {
      if width <= BREAKPOINT && !inSidebar && !inToggle && sidebarActive {
        sidebarActive := false;
        icon := Bars;
      }
    }

    /**
      An in-page anchor's click handler. `clicked` is the index of the anchor among the
      navigation links, if it is one; `targetTop` is its target's top relative to the
      viewport, None when the href selects nothing.
     */
    method AnchorClick(clicked: Option<nat>, width: int, targetTop: Option<int>, pageY: int)
      requires Valid()
      requires clicked.Some? ==> clicked.value < navActive.Length
      modifies this`sidebarActive, this`icon, this`scrollRequest, navActive
      ensures targetTop.None? ==> unchanged(this) && unchanged(navActive)
      ensures targetTop.Some? ==> scrollRequest == Some(targetTop.value + pageY - ANCHOR_OFFSET)
      ensures targetTop.Some? ==> forall j :: 0 <= j < navActive.Length ==> (navActive[j] <==> clicked == Some(j))
      ensures PanelState() == Step(old(PanelState()), Event.AnchorClick(width, targetTop.Some?))
    {
      if targetTop.Some? {
        scrollRequest := Some(targetTop.value + pageY - ANCHOR_OFFSET);
        var i := 0;
        while i < navActive.Length
          invariant 0 <= i <= navActive.Length
          invariant forall j :: 0 <= j < i ==> !navActive[j]
          modifies navActive
        {
          navActive[i] := false;
          i := i + 1;
        }
        if clicked.Some? {
          navActive[clicked.value] := true;
        }
        if width <= BREAKPOINT {
          sidebarActive := false;
          icon := Bars;
        }
      }
    }

    /** The resize handler: the pending timer, if any, is replaced by a new one. */
    method Resize()
      modifies this`resizePending
      ensures PanelState() == Step(old(PanelState()), Event.Resize)
    {
      resizePending := true;
    }

    /** The resize timer's callback, reading the width when it fires. */
    method ResizeTimerFires(width: int)
      modifies this`sidebarActive, this`icon, this`resizePending
      ensures PanelState() == Step(old(PanelState()), Event.ResizeTimerFires(width))
    {
      if resizePending {
        resizePending := false;
        if width > BREAKPOINT {
          sidebarActive := false;
          icon := Bars;
        }
      }
    }
  }
}
