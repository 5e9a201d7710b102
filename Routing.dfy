/** The small routing rules of the site script: where the tour-search form
    sends the visitor, where a hero call-to-action leads, when the sticky
    header and the go-to-top button show, and the navigation-menu toggle
    (assets/js/script.js). Browser effects become returned `Action` values. */
module Routing {
  import opened Text
  import opened SearchIndex

  /** What a handler does to the page: nothing, a smooth scroll to an in-page section,
      a navigation to another page, or the simulated "Searching..." feedback of the form. */
  datatype Action = Stay | ScrollTo(anchor: string) | Navigate(url: string) | SimulateSearch

  // ---------------------------------------------------------------------
  // Tour-search form submission

  /** The submit handler, given the value of the `#destination` field (None when the form
      has no such field). */
  function SubmitAction(destination: Option<string>): (a: Action)
    ensures a == SimulateSearch <==> Normalize(TextOr(destination, "")) == []
    ensures a != SimulateSearch ==> a == Navigate("destinations.html#delhi") || a == Navigate("destinations.html")
    ensures a == Navigate("destinations.html#delhi") <==> Contains(Normalize(TextOr(destination, "")), "delhi")
  {
    var value := Normalize(TextOr(destination, ""));
    if value != [] then
      if Contains(value, "delhi") then Navigate("destinations.html#delhi") else Navigate("destinations.html")
    else
      SimulateSearch
  }

  /** The form ignores surrounding whitespace and letter case. */
  lemma SubmitNormalized(v: string)
    ensures SubmitAction(Some(Normalize(v))) == SubmitAction(Some(v))
  {
    NormalizeIdempotent(v);
    SubmitSameValue(Some(Normalize(v)), Some(v));
  }

  lemma SubmitSameValue(a: Option<string>, b: Option<string>)
    requires Normalize(TextOr(a, "")) == Normalize(TextOr(b, ""))
    ensures SubmitAction(a) == SubmitAction(b)
  {
  }

  lemma SubmitContainsDelhi(t: string)
    requires t != [] && Contains(Normalize(t), "delhi")
    ensures SubmitAction(Some(t)) == Navigate("destinations.html#delhi")
  {
  }

  /** Typing a destination card's title into the form leads to the Delhi anchor whenever the
      search index sends that card there. */
  lemma SubmitAgreesWithIndexOnDelhi(c: DestinationCard)
    requires DestinationRecord(c).url == "destinations.html#delhi"
    ensures SubmitAction(Some(DestinationRecord(c).title)) == Navigate(DestinationRecord(c).url)
  {
    var t := DestinationRecord(c).title;
    assert t != [] && Contains(Normalize(t), "delhi") by {
      DestinationUrlDelhi(t);
      assert |t| == |ToLower(t)|;
      TrimIdempotent(TextOr(c.title, ""));
      ContainsSelf(Normalize(t));
    }
    SubmitContainsDelhi(t);
  }

  lemma NewDelhiNormalized()
    ensures Trim("New Delhi") == "New Delhi"
    ensures Normalize("New Delhi") == "new delhi"
  {
    var t := "New Delhi";
    assert !IsSpace(t[0]) && !IsSpace(t[8]);
    assert TrimStart(t) == t;
    assert TrimEnd(t) == t;
    var l := ToLower(t);
    assert forall i | 0 <= i < 9 :: l[i] == "new delhi"[i];
  }

  lemma NewDelhiIndexUrl()
    ensures DestinationRecord(DestinationCard(0, Some("New Delhi"), None)).url == "destinations.html"
  {
    var t := "New Delhi";
    var c := DestinationCard(0, Some(t), None);
    assert DestinationRecord(c).title == t by {
      NewDelhiNormalized();
    }
    assert DestinationUrl(t) == "destinations.html" by {
      NewDelhiNormalized();
      DestinationUrlDelhi(t);
      assert |ToLower(t)| != |"delhi"|;
    }
  }

  lemma NewDelhiSubmit()
    ensures SubmitAction(Some("New Delhi")) == Navigate("destinations.html#delhi")
  {
    var t := "New Delhi";
    NewDelhiNormalized();
    var v := Normalize(t);
    assert v[4..9] == "delhi";
    ContainsAt(v, "delhi", 4);
    SubmitContainsDelhi(t);
  }

  /** The converse does not hold: the form tests `includes`, the index tests equality, so a
      card titled "New Delhi" is listed with the general page while the form, given the same
      title, goes to the Delhi anchor. */
  lemma SubmitDiffersFromIndex()
    ensures DestinationRecord(DestinationCard(0, Some("New Delhi"), None)).url == "destinations.html"
    ensures SubmitAction(Some("New Delhi")) == Navigate("destinations.html#delhi")
  {
    NewDelhiIndexUrl();
    NewDelhiSubmit();
  }

  // ---------------------------------------------------------------------
  // Hero call-to-action buttons

  /** The click handler of a `.btn-hero` with text `text`; `anchors` are the sections present
      on the page. The label is checked for "explore" before "book". */
  function HeroAction(text: string, anchors: set<string>): (a: Action)
    ensures var lowered := Normalize(text);
      && (a == Stay <==> !Contains(lowered, "explore") && !Contains(lowered, "book"))
      && (a.ScrollTo? ==> a.anchor in anchors && (a.anchor == "#destination" || a.anchor == "#package"))
      && (a.Navigate? ==> a.url == "destinations.html" || a.url == "packages.html")
      && a != SimulateSearch
    ensures Contains(Normalize(text), "explore") ==>
      a == (if "#destination" in anchors then ScrollTo("#destination") else Navigate("destinations.html"))
    ensures !Contains(Normalize(text), "explore") && Contains(Normalize(text), "book") ==>
      a == (if "#package" in anchors then ScrollTo("#package") else Navigate("packages.html"))
  {
    var lowered := Normalize(text);
    if Contains(lowered, "explore") then
      if "#destination" in anchors then ScrollTo("#destination") else Navigate("destinations.html")
    else if Contains(lowered, "book") then
      if "#package" in anchors then ScrollTo("#package") else Navigate("packages.html")
    else
      Stay
  }

  /** A label mentioning both words is an "explore" button: it leads to the destinations. */
  lemma HeroExploreFirst(text: string, anchors: set<string>)
    requires Contains(Normalize(text), "explore") && Contains(Normalize(text), "book")
    ensures HeroAction(text, anchors) == ScrollTo("#destination") || HeroAction(text, anchors) == Navigate("destinations.html")
  {
  }

  /** The button ignores its label's surrounding whitespace and letter case. */
  lemma HeroNormalized(text: string, anchors: set<string>)
    ensures HeroAction(Normalize(text), anchors) == HeroAction(text, anchors)
  {
    NormalizeIdempotent(text);
  }

  // ---------------------------------------------------------------------
  // Sticky header and go-to-top button

  const ScrollThreshold: int := 200

  datatype HeaderState = HeaderState(headerActive: bool, goTopActive: bool)

  /** The scroll handler: the classes it leaves on the header and the go-to-top button,
      whatever they were before. */
  function OnScroll(scrollY: int): (s: HeaderState)
    ensures s.headerActive == s.goTopActive
    ensures s.headerActive <==> scrollY >= ScrollThreshold
  {
    if scrollY >= ScrollThreshold then HeaderState(true, true) else HeaderState(false, false)
  }

  /** Scrolling further down never hides the header again. */
  lemma OnScrollMonotone(y1: int, y2: int)
    requires y1 <= y2 && OnScroll(y1).headerActive
    ensures OnScroll(y2).headerActive
  {
  }

  // ---------------------------------------------------------------------
  // Navigation menu toggle

  datatype NavState = NavState(navbarActive: bool, overlayActive: bool)

  function Toggled(s: NavState): (t: NavState)
    ensures t.navbarActive != s.navbarActive && t.overlayActive != s.overlayActive
  {
    NavState(!s.navbarActive, !s.overlayActive)
  }

  /** Two clicks restore the menu. */
  lemma ToggleTwice(s: NavState)
    ensures Toggled(Toggled(s)) == s
  {
  }

  /** A menu whose navbar and overlay agree keeps them in agreement. */
  lemma ToggleKeepsInSync(s: NavState)
    requires s.navbarActive == s.overlayActive
    ensures Toggled(s).navbarActive == Toggled(s).overlayActive
  {
  }

  /** The `active` classes of the navbar and its overlay; every nav button, the overlay and
      each nav link share one click handler. */
  class NavMenu {
    var navbarActive: bool
    var overlayActive: bool

    function State(): NavState
      reads this
    {
      NavState(navbarActive, overlayActive)
    }

    constructor ()
      ensures !navbarActive && !overlayActive
    {
      navbarActive, overlayActive := false, false;
    }

    /** `navToggleEvent`'s handler: toggles both classes. */
    method Click()
      modifies this
      ensures State() == Toggled(old(State()))
    {
      navbarActive := !navbarActive;
      overlayActive := !overlayActive;
    }
  }
}
