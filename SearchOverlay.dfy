/** The site-search overlay (assets/js/script.js): opening and closing it,
    rendering the matches of the typed query into the results container,
    and what a click on a rendered result does. The page elements the script
    looks up are either present or absent; the model records that once, when
    the overlay is set up. */
module SearchOverlay {
  import opened Text
  import opened SearchIndex
  import opened SearchFilter
  import opened Routing

  /** At most this many matches are rendered. */
  const MaxShown: nat := 12

  /** One element of the results container: the "No results found" placeholder, or a result
      showing a title, a meta line and a "View" link, bound to the record it came from. */
  datatype Entry = NoResults | Item(title: string, meta: string, href: string, source: Record)

  /** The meta line of a result: the record's type, then " • " and its region when it has one. */
  function MetaLine(r: Record): (m: string)
    ensures r.region == [] ==> m == KindLabel(r.kind)
    ensures r.region != [] ==> |m| == |KindLabel(r.kind)| + |Separator| + |r.region|
  {
    KindLabel(r.kind) + (if r.region != [] then Separator + r.region else [])
  }

  /** A meta line starts with the record's type and, when the record has a region, ends with it. */
  lemma MetaLineParts(r: Record)
    ensures StartsWith(MetaLine(r), KindLabel(r.kind))
    ensures r.region != [] ==> MetaLine(r)[|MetaLine(r)| - |r.region|..] == r.region
  {
    var m, k := MetaLine(r), KindLabel(r.kind);
    assert m[..|k|] == k;
    if r.region != [] {
      assert m == k + Separator + r.region;
    }
  }

  /** The entry rendered for a record is a result bound to that record. */
  function EntryFor(r: Record): (e: Entry)
    ensures e.Item? && e.source == r
  {
    Item(r.title, MetaLine(r), r.url, r)
  }

  function Min(a: nat, b: nat): nat {
    if a <= b then a else b
  }

  /** What `renderResults(matches)` leaves in the results container. */
  function Shown(matches: seq<Record>): (r: seq<Entry>)
    ensures 1 <= |r| <= MaxShown
    ensures r == [NoResults] <==> matches == []
    ensures matches != [] ==>
      |r| == Min(MaxShown, |matches|) && forall i :: 0 <= i < |r| ==> r[i] == EntryFor(matches[i])
  {
    if matches == [] then [NoResults]
    else
      var r := seq(Min(MaxShown, |matches|), i requires 0 <= i < Min(MaxShown, |matches|) => EntryFor(matches[i]));
      assert r[0].Item?;
      r
  }

  /** Each shown result displays its record's title, the type alone when the region is empty
      and the type, " • " and the region otherwise, and links to the record's url. */
  lemma ShownEntries(matches: seq<Record>)
    ensures forall e | e in Shown(matches) && e.Item? ::
      && e.source in matches
      && e.title == e.source.title && e.href == e.source.url
      && (e.source.region == [] ==> e.meta == KindLabel(e.source.kind))
      && (e.source.region != [] ==> e.meta == KindLabel(e.source.kind) + Separator + e.source.region)
  {
  }

  /** The shown results are the first matches, in order: a prefix of the match list. */
  lemma ShownPrefix(matches: seq<Record>)
    requires matches != []
    ensures forall i :: 0 <= i < |Shown(matches)| ==> Shown(matches)[i].Item? && Shown(matches)[i].source == matches[i]
    ensures |matches| <= MaxShown ==> |Shown(matches)| == |matches|
  {
  }

  /** The entries of the first matches, in order, are what `Shown` gives. */
  lemma ShownIs(matches: seq<Record>, shown: seq<Entry>)
    requires matches != [] && |shown| == Min(MaxShown, |matches|)
    requires forall k :: 0 <= k < |shown| ==> shown[k] == EntryFor(matches[k])
    ensures shown == Shown(matches)
  {
  }

  /** Results shown for matches drawn from the index come from the index. */
  lemma ShownFrom(matches: seq<Record>, index: seq<Record>)
    requires forall m | m in matches :: m in index
    ensures forall e | e in Shown(matches) && e.Item? :: e.source in index
  {
    forall e | e in Shown(matches) && e.Item?
      ensures e.source in index
    {
      var i :| 0 <= i < |Shown(matches)| && Shown(matches)[i] == e;
      assert e.source == matches[i];
    }
  }

  /** The set of elements of the index's records. */
  function IndexElements(index: seq<Record>): set<ElementId> {
    set r | r in index :: r.element
  }

  /** The overlay's state: whether it is `active`, the entries in the results container, and
      the elements carrying the `search-highlight` class. */
  class SiteSearch {
    const hasOverlay: bool
    const hasResults: bool
    const index: seq<Record>
    var open: bool
    var results: seq<Entry>
    var highlighted: set<ElementId>

    /** An absent overlay is never open, an absent container holds nothing, every rendered
        result comes from the index, and at most one element, an indexed card, is highlighted. */
    ghost predicate Valid()
      reads this
    {
      && (!hasOverlay ==> !open)
      && (!hasResults ==> results == [])
      && (forall e | e in results && e.Item? :: e.source in index)
      && |highlighted| <= 1
      && highlighted <= IndexElements(index)
    }

    /** Set-up on page load: the index is collected once from the cards present then. */
    constructor (hasOverlay: bool, hasResults: bool,
                 ds: seq<DestinationCard>, ps: seq<PackageCard>, gs: seq<GalleryItem>)
      ensures Valid()
      ensures this.hasOverlay == hasOverlay && this.hasResults == hasResults
      ensures index == Index(ds, ps, gs)
      ensures !open && results == [] && highlighted == {}
    {
      var items := CollectItems(ds, ps, gs);
      this.hasOverlay := hasOverlay;
      this.hasResults := hasResults;
      index := items;
      open := false;
      results := [];
      highlighted := {};
    }

    /** `openSearch`: activates the overlay, if there is one. */
    method Open()
      requires Valid()
      modifies this
      ensures Valid()
      ensures open == hasOverlay
      ensures results == old(results) && highlighted == old(highlighted)
    {
      if !hasOverlay {
        return;
      }
      open := true;
    }

    /** `closeSearch`: deactivates the overlay, empties the results and removes every highlight;
        without an overlay it does nothing. */
    method Close()
      requires Valid()
      modifies this
      ensures Valid()
      ensures hasOverlay ==> !open && results == [] && highlighted == {}
      ensures !hasOverlay ==> open == old(open) && results == old(results) && highlighted == old(highlighted)
    {
      if !hasOverlay {
        return;
      }
      open := false;
      results := [];
      highlighted := {};
    }

    /** The Escape key closes the overlay; other keys do nothing. */
    method KeyDown(key: string)
      requires Valid()
      modifies this
      ensures Valid()
      ensures key == "Escape" && hasOverlay ==> !open && results == [] && highlighted == {}
      ensures key != "Escape" || !hasOverlay ==>
        open == old(open) && results == old(results) && highlighted == old(highlighted)
    {
      if key == "Escape" {
        Close();
      }
    }

    /** A click on the overlay closes it when it lands on the backdrop itself. */
    method OverlayClick(onBackdrop: bool)
      requires Valid()
      modifies this
      ensures Valid()
      ensures onBackdrop && hasOverlay ==> !open && results == [] && highlighted == {}
      ensures !onBackdrop || !hasOverlay ==>
        open == old(open) && results == old(results) && highlighted == old(highlighted)
    {
      if onBackdrop {
        Close();
      }
    }

    /** `renderResults(matches)`: clears the container, then shows the placeholder or the first
        twelve matches. */
    method Render(matches: seq<Record>)
      requires Valid()
      requires forall m | m in matches :: m in index
      modifies this
      ensures Valid()
      ensures hasResults ==> results == Shown(matches)
      ensures open == old(open) && highlighted == old(highlighted)
    {
      if !hasResults {
        return;
      }
      results := [];
      if |matches| == 0 {
        results := [NoResults];
        return;
      }
      var n := Min(MaxShown, |matches|);
      var shown: seq<Entry> := [];
      for i := 0 to n
        invariant |shown| == i
        invariant forall k :: 0 <= k < i ==> shown[k] == EntryFor(matches[k])
      {
        shown := shown + [EntryFor(matches[i])];
      }
      ShownIs(matches, shown);
      ShownFrom(matches, index);
      results := shown;
    }

    /** The `input` handler: renders the matches of the typed text. */
    method Input(query: string)
      requires Valid()
      modifies this
      ensures Valid()
      ensures hasResults ==> results == Shown(Filter(index, query))
      ensures open == old(open) && highlighted == old(highlighted)
    {
      Render(Filter(index, query));
    }

    /** A click on the `k`-th element of the results container; `anchors` are the sections
        present on the page. The placeholder has no handler. A result closes the overlay
        first; an in-page url then leaves exactly that result's card highlighted and scrolls
        to its section, any other url navigates away. */
    method Select(k: nat, anchors: set<string>) returns (action: Action)
      requires Valid() && k < |results|
      modifies this
      ensures Valid()
      ensures old(results[k]).NoResults? ==>
        action == Stay && open == old(open) && results == old(results) && highlighted == old(highlighted)
      ensures old(results[k]).Item? ==>
        var m := old(results[k]).source;
        && !open
        && results == (if hasOverlay then [] else old(results))
        && highlighted == (if IsAnchor(m.url) then {m.element}
                           else if hasOverlay then {} else old(highlighted))
        && action == (if IsAnchor(m.url) then (if m.url in anchors then ScrollTo(m.url) else Stay)
                      else if m.url != [] then Navigate(m.url) else Stay)
    {
      var entry := results[k];
      if entry.NoResults? {
        return Stay;
      }
      var m := entry.source;
      assert m.element in IndexElements(index);
      Close();
      if m.url != [] && IsAnchor(m.url) {
        highlighted := {};
        highlighted := highlighted + {m.element};
        action := if m.url in anchors then ScrollTo(m.url) else Stay;
      } else if m.url != [] {
        action := Navigate(m.url);
      } else {
        action := Stay;
      }
    }
  }

  // ---------------------------------------------------------------------
  // A worked example

  /** A destination card titled "Delhi" in the region "North India", and the record the index
      builds from it. */
  function DelhiCard(): DestinationCard {
    DestinationCard(1, Some("Delhi"), Some("North India"))
  }

  function DelhiRecord(): Record {
    Record(Destination, "Delhi", "North India", 1, "destinations.html#delhi")
  }

  lemma DelhiTitleTrimmed()
    ensures Trim("Delhi") == "Delhi"
  {
    var t := "Delhi";
    assert !IsSpace(t[0]) && !IsSpace(t[4]);
    assert TrimStart(t) == t;
    assert TrimEnd(t) == t;
  }

  lemma DelhiTitleLower()
    ensures ToLower("Delhi") == "delhi"
  {
    var l := ToLower("Delhi");
    assert l[0] == 'd' && l[1] == 'e' && l[2] == 'l' && l[3] == 'h' && l[4] == 'i';
  }

  lemma DelhiRegionFixed()
    ensures Trim("North India") == "North India"
  {
    var g := "North India";
    assert !IsSpace(g[0]) && !IsSpace(g[10]);
    assert TrimStart(g) == g;
    assert TrimEnd(g) == g;
  }

  /** The index builds the Delhi record from the Delhi card: trimmed texts, and the Delhi url
      because the title lower-cases to "delhi". */
  lemma DelhiCardRecord()
    ensures DestinationRecord(DelhiCard()) == DelhiRecord()
  {
    DelhiTitleTrimmed();
    DelhiTitleLower();
    DelhiRegionFixed();
    DestinationRecordOf(DelhiCard(), "Delhi", "North India");
    assert DestinationUrl("Delhi") == "destinations.html#delhi";
  }

  /** A page whose only card is the Delhi destination has the Delhi record as its whole index. */
  lemma DelhiIndex()
    ensures Index([DelhiCard()], [], []) == [DelhiRecord()]
  {
    var a := MapSeq(DestinationRecord, [DelhiCard()]);
    assert |a| == 1 && a[0] == DestinationRecord(DelhiCard());
    DelhiCardRecord();
    assert a == [DelhiRecord()];
    assert MapSeq(PackageRecord, []) == [] && MapSeq(GalleryRecord, []) == [];
  }

  lemma NormalizeDel()
    ensures Normalize(" DEL ") == "del"
  {
    var s, t := " DEL ", "DEL ";
    assert IsSpace(s[0]) && s[1..] == t;
    assert !IsSpace('D');
    assert TrimStart(t) == t;
    assert TrimStart(s) == t;
    assert IsSpace(t[3]) && t[..3] == "DEL";
    assert !IsSpace('L');
    assert TrimEnd("DEL") == "DEL";
    assert TrimEnd(t) == "DEL";
    var l := ToLower("DEL");
    assert l[0] == 'd' && l[1] == 'e' && l[2] == 'l';
  }

  lemma NormalizeParis()
    ensures Normalize("paris") == "paris"
  {
    assert !IsSpace('p') && !IsSpace('s');
    assert TrimStart("paris") == "paris";
    assert TrimEnd("paris") == "paris";
    var l := ToLower("paris");
    assert l[0] == 'p' && l[1] == 'a' && l[2] == 'r' && l[3] == 'i' && l[4] == 's';
  }

  lemma DelhiMatchesDel()
    ensures Matches(DelhiRecord(), "del")
  {
    var hay := Haystack(DelhiRecord());
    assert hay[..3] == "del";
    ContainsAt(hay, "del", 0);
  }

  lemma DelhiMissesParis()
    ensures !Matches(DelhiRecord(), "paris")
  {
    var hay := Haystack(DelhiRecord());
    assert 'p' !in hay by {
      assert DelhiRecord().title + " " + DelhiRecord().region == "Delhi North India";
    }
    if Contains(hay, "paris") {
      ContainsChars(hay, "paris", 'p');
      assert false;
    }
  }

  lemma FilterDel()
    ensures Filter([DelhiRecord()], " DEL ") == [DelhiRecord()]
  {
    NormalizeDel();
    DelhiMatchesDel();
    KeepMatchingSingle(DelhiRecord(), "del");
  }

  lemma FilterParis()
    ensures Filter([DelhiRecord()], "paris") == []
  {
    NormalizeParis();
    DelhiMissesParis();
    KeepMatchingSingle(DelhiRecord(), "paris");
  }

  /** The worked example: a Delhi destination is found by " DEL " and rendered as one result,
      while "paris" finds nothing and renders the placeholder. */
  lemma DelhiExample()
    ensures Shown(Filter([DelhiRecord()], " DEL ")) == [EntryFor(DelhiRecord())]
    ensures Shown(Filter([DelhiRecord()], "paris")) == [NoResults]
  {
    FilterDel();
    assert Shown([DelhiRecord()]) == [EntryFor(DelhiRecord())];
    FilterParis();
    assert Shown([]) == [NoResults];
  }

  /** The worked example run on a page whose only card is the Delhi destination: typing " DEL "
      shows the Delhi result, and selecting it navigates to the Delhi entry of the destinations
      page (its url does not start with `#`), closes the overlay and highlights nothing. Typing
      "paris" instead shows the placeholder, and selecting that does nothing. */
  method DelhiWalkthrough(anchors: set<string>)
    returns (found: Action, highlighted: set<ElementId>, missing: Action)
    ensures found == Navigate("destinations.html#delhi") && highlighted == {}
    ensures missing == Stay
  {
    DelhiIndex();
    DelhiExample();
    assert !IsAnchor(DelhiRecord().url) by {
      assert DelhiRecord().url[0] == 'd';
    }
    var site := new SiteSearch(true, true, [DelhiCard()], [], []);
    site.Open();
    site.Input(" DEL ");
    assert site.results == [EntryFor(DelhiRecord())];
    found := site.Select(0, anchors);
    highlighted := site.highlighted;
    site.Open();
    site.Input("paris");
    assert site.results == [NoResults];
    missing := site.Select(0, anchors);
  }
}
