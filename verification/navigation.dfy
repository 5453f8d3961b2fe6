/**
 The navigation bar: its fixed list of section links, the scroll handler that
 sets the "scrolled" flag and picks the active section, and the mobile menu.

 The DOM is abstracted to inputs: a scroll event carries the window's vertical
 offset and, for every section id in declared order, the top of that section's
 bounding box, or `None` when the page has no element with that id.
 */
module Navigation {
  import opened Wrappers

  datatype NavLink = NavLink(href: string, caption: string)

  /** The links in declared order; each `href` is an in-page anchor. */
  const NavLinks: seq<NavLink> := [
    NavLink("#accueil", "Accueil"),
    NavLink("#a-propos", "\U{C0} propos"),
    NavLink("#competences", "Comp\U{E9}tences"),
    NavLink("#projets", "Projets"),
    NavLink("#contact", "Contact")
  ]

  /** The header turns solid once the page has scrolled past this many pixels. */
  const ScrolledThreshold: int := 50

  /** A section becomes active once its top is at most this many pixels below the viewport top. */
  const ActiveThreshold: int := 150

  /** JavaScript's `s.slice(1)`: everything after the first character, empty for the empty string. */
  function SliceFromOne(s: string): string {
    if |s| == 0 then "" else s[1..]
  }

  /** The section ids the scroll handler looks up: the link anchors without their `#`. */
  function SectionIds(): (ids: seq<string>)
    ensures |ids| == |NavLinks|
    ensures forall i :: 0 <= i < |ids| ==> NavLinks[i].href == "#" + ids[i]
  {
    seq(|NavLinks|, i requires 0 <= i < |NavLinks| => SliceFromOne(NavLinks[i].href))
  }

  lemma SectionIdsInOrder()
    ensures SectionIds() == ["accueil", "a-propos", "competences", "projets", "contact"]
  {
    var ids := SectionIds();
    assert ids[0] == "accueil" && ids[1] == "a-propos" && ids[2] == "competences";
    assert ids[3] == "projets" && ids[4] == "contact";
  }

  /** No id is listed twice, so at most one link can match the active section. */
  lemma SectionIdsDistinct()
    ensures forall i, j :: 0 <= i < j < |SectionIds()| ==> SectionIds()[i] != SectionIds()[j]
  {
    SectionIdsInOrder();
  }

  /** A section is a candidate when its element exists and its top has passed the threshold. */
  predicate Qualifies(top: Option<int>) {
    top.Some? && top.value <= ActiveThreshold
  }

  /** Section `i` qualifies and no section after it in declared order does. */
  predicate IsLastQualifying(tops: seq<Option<int>>, i: int) {
    && 0 <= i < |tops|
    && Qualifies(tops[i])
    && forall j :: i < j < |tops| ==> !Qualifies(tops[j])
  }

  predicate NoneQualifies(tops: seq<Option<int>>) {
    forall j :: 0 <= j < |tops| ==> !Qualifies(tops[j])
  }

  /** There is never more than one last qualifying section. */
  lemma LastQualifyingUnique(tops: seq<Option<int>>, i: int, k: int)
    requires IsLastQualifying(tops, i) && IsLastQualifying(tops, k)
    ensures i == k
  {
  }

  /**
   The bottom-to-top scan as a reference definition: look at the last section
   first and stop at the first one that qualifies.
   */
  function LastQualifyingIndex(tops: seq<Option<int>>): (r: Option<nat>)
    ensures r.Some? ==> IsLastQualifying(tops, r.value)
    ensures r.None? <==> NoneQualifies(tops)
  {
    if |tops| == 0 then None
    else if Qualifies(tops[|tops| - 1]) then Some(|tops| - 1)
    else LastQualifyingIndex(tops[..|tops| - 1])
  }

  /**
   The scroll handler's loop: walk the sections in reverse, skip missing
   elements, and break at the first whose top is at most the threshold.
   */
  method ScanSections(tops: seq<Option<int>>) returns (found: Option<nat>)
    ensures found.Some? ==> IsLastQualifying(tops, found.value)
    ensures found.None? ==> NoneQualifies(tops)
    ensures found == LastQualifyingIndex(tops)
  {
    var k := |tops|;
    while k > 0
      invariant 0 <= k <= |tops|
      invariant forall j :: k <= j < |tops| ==> !Qualifies(tops[j])
    {
      k := k - 1;
      if tops[k].Some? {
        var top := tops[k].value;
        if top <= ActiveThreshold {
          found := Some(k);
          LastQualifyingUnique(tops, k, LastQualifyingIndex(tops).value);
          return;
        }
      }
    }
    found := None;
  }

  /** The component's state: header style flag, mobile menu flag, active section id. */
  datatype NavState = NavState(isScrolled: bool, menuOpen: bool, active: string)

  /** Every state the component can be in names one of the page's sections as active. */
  predicate ValidState(s: NavState) {
    s.active in SectionIds()
  }

  /** The state on mount: top of the page, menu closed, first section active. */
  function Initial(): (s: NavState)
    ensures !s.isScrolled && !s.menuOpen
    ensures s.active == SectionIds()[0]
  {
    NavState(false, false, "accueil")
  }

  /**
   One scroll event. The scrolled flag follows the offset; the active section
   becomes the last section in declared order whose top has passed the
   threshold, or stays as it was when none has. The menu is untouched.
   */
  function HandleScroll(s: NavState, scrollY: int, tops: seq<Option<int>>): (r: NavState)
    requires |tops| == |SectionIds()|
    ensures r.isScrolled <==> scrollY > ScrolledThreshold
    ensures r.menuOpen == s.menuOpen
    ensures forall i :: IsLastQualifying(tops, i) ==> r.active == SectionIds()[i]
    ensures NoneQualifies(tops) ==> r.active == s.active
  {
    var active :=
      match LastQualifyingIndex(tops)
      case Some(i) => SectionIds()[i]
      case None => s.active;
    NavState(scrollY > ScrolledThreshold, s.menuOpen, active)
  }

  /** A change of active section is always to a present section whose top has passed the threshold. */
  lemma ScrollSelectsPresentSection(s: NavState, scrollY: int, tops: seq<Option<int>>)
    requires |tops| == |SectionIds()|
    requires HandleScroll(s, scrollY, tops).active != s.active
    ensures exists i :: 0 <= i < |tops| && SectionIds()[i] == HandleScroll(s, scrollY, tops).active
                        && tops[i].Some? && tops[i].value <= ActiveThreshold
  {
    var i := LastQualifyingIndex(tops).value;
    assert SectionIds()[i] == HandleScroll(s, scrollY, tops).active;
  }

  /** The scan carries nothing between events: replaying the same event changes nothing. */
  lemma HandleScrollIdempotent(s: NavState, scrollY: int, tops: seq<Option<int>>)
    requires |tops| == |SectionIds()|
    ensures HandleScroll(HandleScroll(s, scrollY, tops), scrollY, tops) == HandleScroll(s, scrollY, tops)
  {
  }

  /** The only side effect of following a link besides the state change. */
  datatype Effect = ScrollIntoView(target: string) | NoScroll

  datatype Step = Step(state: NavState, effect: Effect)

  /**
   Following a navigation link: scroll smoothly to the target when it exists,
   and close the mobile menu in every case.
   */
  function ScrollToSection(s: NavState, href: string, elementPresent: bool): (r: Step)
    ensures !r.state.menuOpen
    ensures r.state.isScrolled == s.isScrolled && r.state.active == s.active
    ensures r.effect.ScrollIntoView? <==> elementPresent
    ensures r.effect.ScrollIntoView? ==> r.effect.target == href
  {
    Step(s.(menuOpen := false), if elementPresent then ScrollIntoView(href) else NoScroll)
  }

  /** The menu button flips the mobile menu and nothing else. */
  function ToggleMenu(s: NavState): (r: NavState)
    ensures r.menuOpen != s.menuOpen
    ensures r.isScrolled == s.isScrolled && r.active == s.active
  {
    s.(menuOpen := !s.menuOpen)
  }

  lemma ToggleMenuTwice(s: NavState)
    ensures ToggleMenu(ToggleMenu(s)) == s
  {
  }

  /** The inputs the component reacts to. */
  datatype Event =
    | Scroll(scrollY: int, tops: seq<Option<int>>)
    | Navigate(href: string, elementPresent: bool)
    | MenuButton

  predicate WellFormed(e: Event) {
    e.Scroll? ==> |e.tops| == |SectionIds()|
  }

  function Next(s: NavState, e: Event): (r: NavState)
    requires WellFormed(e)
    ensures ValidState(s) ==> ValidState(r)
  {
    match e
    case Scroll(y, tops) => HandleScroll(s, y, tops)
    case Navigate(href, present) => ScrollToSection(s, href, present).state
    case MenuButton => ToggleMenu(s)
  }

  /** The state after a sequence of events. */
  function Run(s: NavState, events: seq<Event>): NavState
    requires forall k :: 0 <= k < |events| ==> WellFormed(events[k])
    decreases |events|
  {
    if |events| == 0 then s else Run(Next(s, events[0]), events[1..])
  }

  /** From mount onwards, the active section is always one of the page's sections. */
  lemma {:induction false} RunPreservesValid(s: NavState, events: seq<Event>)
    requires ValidState(s)
    requires forall k :: 0 <= k < |events| ==> WellFormed(events[k])
    ensures ValidState(Run(s, events))
    decreases |events|
  {
    if |events| > 0 {
      RunPreservesValid(Next(s, events[0]), events[1..]);
    }
  }

  lemma InitialValid()
    ensures ValidState(Initial())
  {
    SectionIdsInOrder();
    assert SectionIds()[0] == Initial().active;
  }

  lemma ReachableStatesValid(events: seq<Event>)
    requires forall k :: 0 <= k < |events| ==> WellFormed(events[k])
    ensures ValidState(Run(Initial(), events))
  {
    InitialValid();
    RunPreservesValid(Initial(), events);
  }

  /** A link is drawn as active when its anchor names the active section. */
  predicate LinkActive(s: NavState, link: NavLink) {
    s.active == SliceFromOne(link.href)
  }

  /** In every valid state exactly one navigation link is highlighted. */
  lemma ExactlyOneLinkActive(s: NavState)
    requires ValidState(s)
    ensures exists i :: 0 <= i < |NavLinks| && LinkActive(s, NavLinks[i])
    ensures forall i, j ::
              0 <= i < |NavLinks| && 0 <= j < |NavLinks| && LinkActive(s, NavLinks[i]) && LinkActive(s, NavLinks[j])
              ==> i == j
  {
    SectionIdsDistinct();
    var i :| 0 <= i < |SectionIds()| && SectionIds()[i] == s.active;
    assert LinkActive(s, NavLinks[i]);
  }

  /** Section `competences` at y=100 and `projets` at y=400: `competences` becomes active. */
  lemma ScrollExample(s: NavState)
    ensures HandleScroll(s, 600, [Some(-1200), Some(-600), Some(100), Some(400), Some(1100)])
            == NavState(true, s.menuOpen, "competences")
  {
    var tops := [Some(-1200), Some(-600), Some(100), Some(400), Some(1100)];
    assert IsLastQualifying(tops, 2);
    SectionIdsInOrder();
  }
}
