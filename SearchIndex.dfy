/** Building the site-search index from the cards rendered on the page
    (`collectItems`, assets/js/script.js). The page is abstracted to three
    lists of cards, in document order; each card carries the text the script
    reads from it and the identity of its element, which the overlay later
    highlights. */
module SearchIndex {
  import opened Text

  datatype Option<T> = None | Some(value: T)

  /** Identity of a card element on the page. */
  type ElementId = nat

  datatype Kind = Destination | Package | Gallery

  /** One searchable record: `{ type, title, region, element, url }`. */
  datatype Record = Record(kind: Kind, title: string, region: string, element: ElementId, url: string)

  /** A `.popular-card`: the text of its `.card-title a` and `.card-subtitle a`, if those exist. */
  datatype DestinationCard = DestinationCard(id: ElementId, title: Option<string>, subtitle: Option<string>)

  /** A `.package-card`: the text of its `.card-title`, if any, and of each `.card-meta-list .text`. */
  datatype PackageCard = PackageCard(id: ElementId, title: Option<string>, meta: seq<string>)

  /** A `.gallery-item`: the `alt` of its `img`, or None when it holds no image. */
  datatype GalleryItem = GalleryItem(id: ElementId, alt: Option<string>)

  const Separator: string := " \U{2022} "
  const GalleryFallback: string := "Gallery image"

  /** The label shown for a record's `type`. */
  function KindLabel(k: Kind): string {
    match k
    case Destination => "Destination"
    case Package => "Package"
    case Gallery => "Gallery"
  }

  /** JavaScript's `text || fallback`: a missing or empty string gives the fallback. */
  function TextOr(o: Option<string>, fallback: string): (r: string)
    ensures o.Some? && o.value != [] ==> r == o.value
    ensures o.None? || o.value == [] ==> r == fallback
  {
    if o.Some? && o.value != [] then o.value else fallback
  }

  /** An in-page target: a url beginning with `#`. */
  predicate IsAnchor(url: string)
    ensures IsAnchor(url) <==> url != [] && url[0] == '#'
  {
    StartsWith(url, "#")
  }

  /** A destination's target: the destinations section when it has no title, the Delhi entry of
      the destinations page for the title "delhi" in any case, and the destinations page otherwise. */
  function DestinationUrl(title: string): (url: string)
    ensures url == "#destination" <==> title == []
    ensures url == "#destination" || url == "destinations.html#delhi" || url == "destinations.html"
  {
    if title == [] then "#destination"
    else if ToLower(title) == "delhi" then "destinations.html#delhi"
    else "destinations.html"
  }

  /** The record of a destination card. Its title is empty exactly when the card has no title
      text or only whitespace there. */
  function DestinationRecord(c: DestinationCard): (r: Record)
    ensures r.kind == Destination && r.element == c.id
    ensures r.title == [] <==> c.title.None? || forall i :: 0 <= i < |c.title.value| ==> IsSpace(c.title.value[i])
    ensures r.title == [] <==> r.url == "#destination"
  {
    var title := Trim(TextOr(c.title, ""));
    TrimEmptyIff(TextOr(c.title, ""));
    Record(Destination, title, Trim(TextOr(c.subtitle, "")), c.id, DestinationUrl(title))
  }

  /** The record of a destination card with a title and a subtitle holds both texts trimmed,
      and its target follows the trimmed title. */
  lemma DestinationRecordOf(c: DestinationCard, t: string, g: string)
    requires c.title == Some(t) && c.subtitle == Some(g)
    ensures DestinationRecord(c) == Record(Destination, Trim(t), Trim(g), c.id, DestinationUrl(Trim(t)))
  {
    assert TextOr(c.title, "") == t by {
      if t == [] { assert TextOr(c.title, "") == []; }
    }
    assert TextOr(c.subtitle, "") == g by {
      if g == [] { assert TextOr(c.subtitle, "") == []; }
    }
  }

  /** The texts of a destination record are the card's title and subtitle texts trimmed; a
      missing text gives the empty string. */
  lemma DestinationTexts(c: DestinationCard)
    ensures c.title.Some? ==> DestinationRecord(c).title == Trim(c.title.value)
    ensures c.title.None? ==> DestinationRecord(c).title == []
    ensures c.subtitle.Some? ==> DestinationRecord(c).region == Trim(c.subtitle.value)
    ensures c.subtitle.None? ==> DestinationRecord(c).region == []
  {
    if c.title.Some? && c.title.value == [] {
      assert TextOr(c.title, "") == c.title.value;
    }
    if c.subtitle.Some? && c.subtitle.value == [] {
      assert TextOr(c.subtitle, "") == c.subtitle.value;
    }
  }

  /** The record of a package card: it always targets the packages section, and its region
      starts with the first trimmed meta text. */
  function PackageRecord(c: PackageCard): (r: Record)
    ensures r.kind == Package && r.element == c.id && IsAnchor(r.url)
    ensures c.meta == [] ==> r.region == []
    ensures c.meta != [] ==> StartsWith(r.region, Trim(c.meta[0]))
  {
    var parts := TrimAll(c.meta);
    assert c.meta != [] ==> parts[0] == Trim(c.meta[0]);
    Record(Package, Trim(TextOr(c.title, "")), Join(parts, Separator), c.id, "#package")
  }

  /** The title of a package record is the card's title text trimmed, and empty when the card
      has no title. */
  lemma PackageTitle(c: PackageCard)
    ensures c.title.Some? ==> PackageRecord(c).title == Trim(c.title.value)
    ensures c.title.None? ==> PackageRecord(c).title == []
  {
    if c.title.Some? && c.title.value == [] {
      assert TextOr(c.title, "") == c.title.value;
    }
  }

  /** The record of a gallery item: no region, the gallery section as target. */
  function GalleryRecord(c: GalleryItem): (r: Record)
    ensures r.kind == Gallery && r.element == c.id && IsAnchor(r.url)
    ensures r.region == []
  {
    Record(Gallery, Trim(TextOr(c.alt, GalleryFallback)), "", c.id, "#gallery")
  }

  /** One record per card, in card order. */
  function MapSeq<A, B>(f: A -> B, s: seq<A>): (r: seq<B>)
    ensures |r| == |s| && forall i :: 0 <= i < |s| ==> r[i] == f(s[i])
  {
    seq(|s|, i requires 0 <= i < |s| => f(s[i]))
  }

  lemma MapSeqSnoc<A, B>(f: A -> B, s: seq<A>, i: nat)
    requires i < |s|
    ensures MapSeq(f, s[..i + 1]) == MapSeq(f, s[..i]) + [f(s[i])]
  {
    var a, b := MapSeq(f, s[..i + 1]), MapSeq(f, s[..i]) + [f(s[i])];
    forall k | 0 <= k < i + 1
      ensures a[k] == b[k]
    {
      assert s[..i + 1][k] == s[k];
    }
  }

  /** The index as a value: destinations, then packages, then gallery items. */
  function Index(ds: seq<DestinationCard>, ps: seq<PackageCard>, gs: seq<GalleryItem>): (r: seq<Record>)
    ensures |r| == |ds| + |ps| + |gs|
  {
    MapSeq(DestinationRecord, ds) + MapSeq(PackageRecord, ps) + MapSeq(GalleryRecord, gs)
  }

  /** `collectItems`: three passes over the cards, each pushing one record per card. */
  method CollectItems(ds: seq<DestinationCard>, ps: seq<PackageCard>, gs: seq<GalleryItem>)
    returns (items: seq<Record>)
    ensures items == Index(ds, ps, gs)
  {
    items := [];
    for i := 0 to |ds|
      invariant items == MapSeq(DestinationRecord, ds[..i])
    {
      MapSeqSnoc(DestinationRecord, ds, i);
      items := items + [DestinationRecord(ds[i])];
    }
    assert ds[..|ds|] == ds;
    var front := items;
    for j := 0 to |ps|
      invariant items == front + MapSeq(PackageRecord, ps[..j])
    {
      MapSeqSnoc(PackageRecord, ps, j);
      items := items + [PackageRecord(ps[j])];
    }
    assert ps[..|ps|] == ps;
    front := items;
    for k := 0 to |gs|
      invariant items == front + MapSeq(GalleryRecord, gs[..k])
    {
      MapSeqSnoc(GalleryRecord, gs, k);
      items := items + [GalleryRecord(gs[k])];
    }
    assert gs[..|gs|] == gs;
  }

  /** The index holds one record per card: first the destinations, then the packages, then
      the gallery items, each group in card order. */
  lemma IndexLayout(ds: seq<DestinationCard>, ps: seq<PackageCard>, gs: seq<GalleryItem>)
    ensures |Index(ds, ps, gs)| == |ds| + |ps| + |gs|
    ensures Index(ds, ps, gs)[..|ds|] == MapSeq(DestinationRecord, ds)
    ensures Index(ds, ps, gs)[|ds|..|ds| + |ps|] == MapSeq(PackageRecord, ps)
    ensures Index(ds, ps, gs)[|ds| + |ps|..] == MapSeq(GalleryRecord, gs)
  {
    var a, b, c := MapSeq(DestinationRecord, ds), MapSeq(PackageRecord, ps), MapSeq(GalleryRecord, gs);
    assert Index(ds, ps, gs) == a + b + c;
    assert (a + b + c)[..|a|] == a;
    assert (a + b + c)[|a|..|a| + |b|] == b;
    assert (a + b + c)[|a| + |b|..] == c;
  }

  /** The record at each position of the index has the kind and the element of the card at
      the corresponding position of its group. */
  lemma RecordsKeepCards(ds: seq<DestinationCard>, ps: seq<PackageCard>, gs: seq<GalleryItem>)
    ensures forall i :: 0 <= i < |ds| ==>
      Index(ds, ps, gs)[i].kind == Destination && Index(ds, ps, gs)[i].element == ds[i].id
    ensures forall j :: 0 <= j < |ps| ==>
      Index(ds, ps, gs)[|ds| + j].kind == Package && Index(ds, ps, gs)[|ds| + j].element == ps[j].id
    ensures forall k :: 0 <= k < |gs| ==>
      Index(ds, ps, gs)[|ds| + |ps| + k].kind == Gallery && Index(ds, ps, gs)[|ds| + |ps| + k].element == gs[k].id
  {
    var a, b, c := MapSeq(DestinationRecord, ds), MapSeq(PackageRecord, ps), MapSeq(GalleryRecord, gs);
    assert Index(ds, ps, gs) == a + b + c;
  }

  /** The url rule of every record in the index. */
  lemma IndexUrls(ds: seq<DestinationCard>, ps: seq<PackageCard>, gs: seq<GalleryItem>)
    ensures forall r | r in Index(ds, ps, gs) ::
      match r.kind
      case Destination =>
        && (r.title == [] ==> r.url == "#destination")
        && (r.title != [] && ToLower(r.title) == "delhi" ==> r.url == "destinations.html#delhi")
        && (r.title != [] && ToLower(r.title) != "delhi" ==> r.url == "destinations.html")
      case Package => r.url == "#package"
      case Gallery => r.url == "#gallery"
  {
  }

  /** A destination goes to the Delhi anchor exactly when its title lower-cases to "delhi". */
  lemma DestinationUrlDelhi(title: string)
    ensures DestinationUrl(title) == "destinations.html#delhi" <==> ToLower(title) == "delhi"
  {
    if title == [] {
      assert "destinations.html#delhi"[0] != "#destination"[0];
    }
    assert |"destinations.html#delhi"| != |"destinations.html"|;
  }

  /** A destination url is an in-page anchor exactly when the title is empty. */
  lemma DestinationUrlAnchor(title: string)
    ensures IsAnchor(DestinationUrl(title)) <==> title == []
  {
    if title != [] {
      var url := DestinationUrl(title);
      assert url == "destinations.html" || url == "destinations.html#delhi";
      assert url[0] == 'd';
    }
  }

  /** Which records scroll within the page and which lead to another page: only a destination
      with a non-empty title points away from the page. */
  lemma IndexAnchors(ds: seq<DestinationCard>, ps: seq<PackageCard>, gs: seq<GalleryItem>)
    ensures forall r | r in Index(ds, ps, gs) ::
      IsAnchor(r.url) <==> (r.kind != Destination || r.title == [])
  {
    forall d | d in ds
      ensures IsAnchor(DestinationRecord(d).url) <==> DestinationRecord(d).title == []
    {
      DestinationUrlAnchor(DestinationRecord(d).title);
    }
  }

  lemma TextTrimmed(o: Option<string>, fallback: string)
    ensures Trim(Trim(TextOr(o, fallback))) == Trim(TextOr(o, fallback))
  {
    TrimIdempotent(TextOr(o, fallback));
  }

  /** The texts of the record at each position of the index: the trimmed title and subtitle of
      a destination card, the trimmed title of a package card and the trimmed `alt` (or the
      fallback) of a gallery item. A missing text counts as empty. */
  lemma IndexTexts(ds: seq<DestinationCard>, ps: seq<PackageCard>, gs: seq<GalleryItem>)
    ensures forall i :: 0 <= i < |ds| ==>
      Index(ds, ps, gs)[i].title == Trim(TextOr(ds[i].title, "")) &&
      Index(ds, ps, gs)[i].region == Trim(TextOr(ds[i].subtitle, ""))
    ensures forall j :: 0 <= j < |ps| ==>
      Index(ds, ps, gs)[|ds| + j].title == Trim(TextOr(ps[j].title, ""))
    ensures forall k :: 0 <= k < |gs| ==>
      Index(ds, ps, gs)[|ds| + |ps| + k].title == Trim(TextOr(gs[k].alt, GalleryFallback))
  {
    IndexAt(ds, ps, gs);
  }

  /** The record at each position of the index is the record of the card at the corresponding
      position of its group. */
  lemma IndexAt(ds: seq<DestinationCard>, ps: seq<PackageCard>, gs: seq<GalleryItem>)
    ensures forall i :: 0 <= i < |ds| ==> Index(ds, ps, gs)[i] == DestinationRecord(ds[i])
    ensures forall j :: 0 <= j < |ps| ==> Index(ds, ps, gs)[|ds| + j] == PackageRecord(ps[j])
    ensures forall k :: 0 <= k < |gs| ==> Index(ds, ps, gs)[|ds| + |ps| + k] == GalleryRecord(gs[k])
  {
    var a, b, c := MapSeq(DestinationRecord, ds), MapSeq(PackageRecord, ps), MapSeq(GalleryRecord, gs);
    assert Index(ds, ps, gs) == a + b + c;
  }

  /** Titles are stored trimmed, and so are destination regions. */
  lemma IndexTrimmed(ds: seq<DestinationCard>, ps: seq<PackageCard>, gs: seq<GalleryItem>)
    ensures forall r | r in Index(ds, ps, gs) ::
      Trim(r.title) == r.title && (r.kind == Destination ==> Trim(r.region) == r.region)
  {
    forall d | d in ds
      ensures Trim(DestinationRecord(d).title) == DestinationRecord(d).title
      ensures Trim(DestinationRecord(d).region) == DestinationRecord(d).region
    {
      TextTrimmed(d.title, "");
      TextTrimmed(d.subtitle, "");
    }
    forall p | p in ps
      ensures Trim(PackageRecord(p).title) == PackageRecord(p).title
    {
      TextTrimmed(p.title, "");
    }
    forall g | g in gs
      ensures Trim(GalleryRecord(g).title) == GalleryRecord(g).title
    {
      TextTrimmed(g.alt, GalleryFallback);
    }
  }

  /** A package's region is its trimmed meta texts joined by " • ". */
  lemma PackageRegion(c: PackageCard)
    ensures c.meta == [] ==> PackageRecord(c).region == []
    ensures |c.meta| == 1 ==> PackageRecord(c).region == Trim(c.meta[0])
    ensures |c.meta| > 1 ==>
      PackageRecord(c).region == Join(TrimAll(c.meta[..|c.meta| - 1]), Separator) + Separator + Trim(c.meta[|c.meta| - 1])
  {
    var parts := TrimAll(c.meta);
    assert PackageRecord(c).region == Join(parts, Separator);
    if |c.meta| == 1 {
      assert parts == [Trim(c.meta[0])];
    } else if |c.meta| > 1 {
      var n := |c.meta|;
      TrimAllSnoc(c.meta);
      JoinSnoc(TrimAll(c.meta[..n - 1]), Separator, Trim(c.meta[n - 1]));
    }
  }

  /** Each trimmed meta text occurs in the package's region. */
  lemma PackageRegionHoldsMeta(c: PackageCard, k: nat)
    requires k < |c.meta|
    ensures Contains(PackageRecord(c).region, Trim(c.meta[k]))
  {
    JoinContainsPart(TrimAll(c.meta), Separator, k);
  }

  /** A gallery record has no region; its title is the trimmed `alt`, or "Gallery image" when
      there is no image or its `alt` is empty. */
  lemma GalleryFields(c: GalleryItem)
    ensures GalleryRecord(c).region == []
    ensures c.alt.Some? && c.alt.value != [] ==> GalleryRecord(c).title == Trim(c.alt.value)
    ensures c.alt.None? || c.alt.value == [] ==> GalleryRecord(c).title == GalleryFallback
  {
    assert Trim(GalleryFallback) == GalleryFallback by {
      var g := GalleryFallback;
      assert !IsSpace(g[0]) && !IsSpace(g[|g| - 1]);
      assert TrimStart(g) == g;
      assert TrimEnd(g) == g;
    }
  }
}
