# Site search and routing rules of the travel-agency site script

This project is a Dafny model of the client-side behaviour of `assets/js/script.js`. It covers two parts:

- **The site-search overlay.** At page load an index of searchable records is collected from the destination, package and gallery cards (`collectItems`). The text typed into the search box is trimmed, lower-cased and looked up in each record's title and region (`filterItems`). At most twelve matches, or a "No results found" placeholder, are shown in the results container (`renderResults`). A click on a result closes the overlay. It then highlights the record's card and scrolls to an in-page section, or navigates to another page. The overlay opens and closes with its buttons, a click on its backdrop and the Escape key (`openSearch`, `closeSearch`).
- **The small routing rules around it:**
  - where the tour-search form sends the visitor;
  - where the hero call-to-action buttons lead;
  - when the sticky header and the go-to-top button show;
  - how the navigation menu toggles.

The project has five modules:

- `Text` holds the JavaScript string operations the script relies on: `trim`, `toLowerCase`, `includes`, `startsWith` and `join`.
- `SearchIndex` builds the index.
- `SearchFilter` holds the query filter.
- `SearchOverlay` holds the overlay as a class with its mutable state. That state is whether the overlay is open, what the results container holds and which card is highlighted.
- `Routing` holds the form, hero, scroll and navigation rules. The menu is a class whose click handler toggles two flags.

The page is abstracted as follows:

- **Cards.** Each kind of card is a list of values in document order. Each value carries the text the script reads from the card and the identity of the card's element.
- **Optional elements.** An element the script may fail to find is an `Option`. This covers a card's title, a destination card's subtitle, a gallery image and the `#destination` field.
- **Overlay and results container.** Whether these exist is fixed when the overlay is set up.
- **In-page sections.** The sections that exist are given as a set of anchors.
- **Browser effects.** Scrolling, navigating and the form's "Searching..." feedback are returned as `Action` values.

The code differs from the site's design description in the places below. The model follows the code in each:

- **The Delhi destination is not an in-page target.** The design sends a destination whose title equals the recognised name, ignoring case, to an in-page anchor. Selecting it should therefore scroll to the card and highlight it. The code gives such a card the url `destinations.html#delhi` (lines 217-218). That url does not start with `#` (line 254), so selecting the result navigates to the destinations page and highlights nothing (line 260). `SearchOverlay.DelhiWalkthrough` works this through for a "Delhi" card.
- **Closing is not unconditional.** The design says closing always empties the results and removes every highlight. The code's `closeSearch` returns at once when the overlay element is missing (line 195). In that case the results and highlights stay as they were (`SearchOverlay.SiteSearch.Close`). The design also clears every highlight at the start of any selection. The code clears them explicitly only on the in-page path (line 255). On the navigation path the only clearing is the one `closeSearch` does (line 253). So without an overlay, a result whose url is not in-page keeps the old highlight (`SearchOverlay.SiteSearch.Select`).

A detail the design does not mention: a gallery image whose `alt` is empty also gets the title "Gallery image", because the code uses `||` (line 233).

One property below is worth pointing out: the form and the index disagree on which destinations are "Delhi". The form tests `includes('delhi')`, while the index tests equality with `delhi`. So a card titled "New Delhi" is indexed with `destinations.html`, but the form sends the same text to `destinations.html#delhi` (`Routing.SubmitDiffersFromIndex`).

## Model

| member | source | states |
|---|---|---|
| Text.TrimStart | assets/js/script.js:268 | the result is a suffix of the input, every dropped character is ECMAScript whitespace, and the result does not start with whitespace |
| Text.TrimEnd | assets/js/script.js:268 | the result is a prefix of the input, every dropped character is whitespace, and the result does not end with whitespace |
| Text.Trim | assets/js/script.js:268 | `trim` never lengthens the text, and a non-empty result neither starts nor ends with whitespace |
| Text.TrimIsBlock | assets/js/script.js:268 | `trim` keeps one contiguous block of the text, and every character before or after that block is whitespace |
| Text.TrimKeepsSlice | assets/js/script.js:268 | the trimmed text is the slice of the input that starts where the leading whitespace ends |
| Text.TrimDropsTrailing | assets/js/script.js:268 | every character after the trimmed block is whitespace |
| Text.ToLower | assets/js/script.js:268 | `toLowerCase` keeps the length, leaves no upper-case letter, and changes only upper-case letters, each by the ASCII offset 32 |
| Text.Normalize | assets/js/script.js:268 | the query `query.trim().toLowerCase()` is no longer than the input, neither starts nor ends with whitespace, and holds no upper-case letter |
| Text.Contains | assets/js/script.js:270 | `includes` holds for every prefix of the text, and never for a query longer than the text |
| Text.LowerChar | assets/js/script.js:268 | a lowered character is never an upper-case letter, whitespace is kept, and only upper-case letters change, by the ASCII offset 32 |
| Text.StartsWith | assets/js/script.js:254 | `startsWith` holds exactly when the prefix is no longer than the text and equals the text's slice of its length |
| Text.Join | assets/js/script.js:228 | joining no parts gives the empty string, and otherwise the result starts with the first part |
| Text.ContainsIffOccurs | assets/js/script.js:270 | `includes` holds exactly when the query occurs as a contiguous block at some position |
| Text.ContainsTrans | assets/js/script.js:270 | a block of a block of a string is a block of that string |
| Text.LowerKeepsContains | assets/js/script.js:270 | lower-casing both sides keeps an occurrence |
| Text.TrimLowerCommute | assets/js/script.js:268 | trimming and lower-casing commute |
| Text.TrimIdempotent | assets/js/script.js:213-214 | trimming an already trimmed text changes nothing |
| Text.TrimEmptyIff | assets/js/script.js:268-269 | `trim` gives the empty string exactly when the text is all whitespace |
| Text.NormalizeIdempotent | assets/js/script.js:268 | trim-then-lower-case applied twice is the same as once |
| Text.NormalizeEmptyIff | assets/js/script.js:268-269 | a query normalises to the empty string exactly when it is all whitespace |
| Text.JoinContainsPart | assets/js/script.js:228 | every joined meta text occurs in the joined region |
| Text.JoinSnoc | assets/js/script.js:228 | joining one more part appends the separator and that part |
| SearchIndex.TextOr | assets/js/script.js:213 | `text \|\| ''`: a present, non-empty text is kept, and a missing or empty one gives the fallback |
| SearchIndex.IsAnchor | assets/js/script.js:254 | a url is in-page exactly when it is non-empty and its first character is `#` |
| SearchIndex.DestinationUrl | assets/js/script.js:215-222 | a destination url is `#destination` exactly when the title is empty, and is otherwise `destinations.html#delhi` or `destinations.html` |
| SearchIndex.DestinationRecord | assets/js/script.js:212-224 | a destination record has the Destination type and its card's element; its title is empty exactly when the card has no title or an all-whitespace one, and exactly when its url is `#destination` |
| SearchIndex.DestinationRecordOf | assets/js/script.js:212-224 | a card with a title and a subtitle gives the record of its type, the trimmed title, the trimmed subtitle, its element and the url of the trimmed title |
| SearchIndex.DestinationTexts | assets/js/script.js:213-214 | a destination record's title and region are the card's title and subtitle texts trimmed, and empty when the card lacks them |
| SearchIndex.PackageRecord | assets/js/script.js:226-230 | a package record has the Package type, its card's element and an in-page url; its region is empty without meta texts and otherwise starts with the first trimmed meta text |
| SearchIndex.PackageTitle | assets/js/script.js:227 | a package record's title is the card's title text trimmed, and empty when the card has none |
| SearchIndex.GalleryRecord | assets/js/script.js:232-235 | a gallery record has the Gallery type, its card's element, an in-page url and an empty region |
| SearchIndex.Index | assets/js/script.js:209-237 | the index has exactly one record per card |
| SearchIndex.CollectItems | assets/js/script.js:209-237 | the three passes push exactly one record per card, giving destinations, then packages, then gallery items, each in card order |
| SearchIndex.IndexLayout | assets/js/script.js:209-237 | the index has one record per card, in three consecutive groups in card order |
| SearchIndex.RecordsKeepCards | assets/js/script.js:223-234 | the record at each index position carries the type and the element of the card at the corresponding position: destination `i` at `i`, package `j` at `\|ds\| + j`, gallery item `k` at `\|ds\| + \|ps\| + k` |
| SearchIndex.IndexAt | assets/js/script.js:209-237 | the record at each index position is the record built from the card at the corresponding position of its group |
| SearchIndex.IndexTexts | assets/js/script.js:213-233 | the record at each index position holds the trimmed texts of its card: title and subtitle of a destination, title of a package, `alt` or "Gallery image" of a gallery item |
| SearchIndex.IndexUrls | assets/js/script.js:215-234 | a destination with an empty title gets `#destination`; a title lowering to `delhi` gets `destinations.html#delhi`; any other title gets `destinations.html`; packages get `#package` and gallery items `#gallery` |
| SearchIndex.DestinationUrlDelhi | assets/js/script.js:216-221 | a destination goes to the Delhi anchor exactly when its title lower-cases to `delhi` |
| SearchIndex.DestinationUrlAnchor | assets/js/script.js:215-222 | a destination url is in-page exactly when the title is empty |
| SearchIndex.IndexAnchors | assets/js/script.js:215-234 | a record's url starts with `#` exactly when it is not a destination or its title is empty |
| SearchIndex.IndexTrimmed | assets/js/script.js:213-233 | every stored title and destination region is unchanged by a further `trim`; which text each one is comes from `SearchIndex.IndexTexts` |
| SearchIndex.PackageRegion | assets/js/script.js:228 | a package's region is empty with no meta texts, is the single trimmed text with one, and is otherwise the join of all but the last, " • " and the last |
| SearchIndex.PackageRegionHoldsMeta | assets/js/script.js:228 | each trimmed meta text occurs in its package's region |
| SearchIndex.GalleryFields | assets/js/script.js:233-234 | a gallery record has an empty region; its title is the trimmed `alt`, or "Gallery image" when there is no image or an empty `alt` |
| SearchFilter.Haystack | assets/js/script.js:270 | the searched text is the title, one space and the region, lower-cased: its length is theirs plus one, the space sits right after the title, and no letter in it is upper-case |
| SearchFilter.Matches | assets/js/script.js:270 | the empty query matches every record, and a matching query is no longer than the searched text |
| SearchFilter.KeepMatching | assets/js/script.js:270 | the filter never grows the list, and it keeps only records of the list that match |
| SearchFilter.KeepMatchingSingle | assets/js/script.js:270 | a one-record list is kept exactly when its record matches |
| SearchFilter.Filter | assets/js/script.js:267-271 | a blank query gives no results, and every result is an index record that matches the normalised query |
| SearchFilter.FilterExact | assets/js/script.js:267-271 | for a non-blank query the result lists the index at strictly increasing positions, and those are exactly the positions of the matching records: every match once, in index order, and nothing else |
| SearchFilter.KeepMatchingPicks | assets/js/script.js:270 | the kept records are the index records at the match positions |
| SearchFilter.MatchPositionsIncrease | assets/js/script.js:270 | the match positions are strictly increasing |
| SearchFilter.MatchPositionsExact | assets/js/script.js:270 | a position is among the match positions exactly when its record matches |
| SearchFilter.FilterBlankQuery | assets/js/script.js:268-269 | an empty or all-whitespace query finds nothing |
| SearchFilter.FilterNormalized | assets/js/script.js:268 | the query's surrounding whitespace and letter case do not change the result, in either order of trimming and lower-casing |
| SearchFilter.FilterSameQuery | assets/js/script.js:268-270 | two queries with the same normalised form find the same records |
| SearchFilter.KeepMatchingAllMatch | assets/js/script.js:270 | a list whose records all match is kept whole |
| SearchFilter.FilterRefilter | assets/js/script.js:267-271 | filtering the filtered list with the same query changes nothing |
| SearchFilter.MatchesByTitleOrRegion | assets/js/script.js:270 | a record matches every query occurring in its lower-cased title or region |
| SearchFilter.KeepMatchingKeeps | assets/js/script.js:270 | the filter never drops a matching record |
| SearchFilter.FoundByTitleOrRegion | assets/js/script.js:267-271 | an indexed record is found by any non-blank query that occurs in its title or region, ignoring case and the query's surrounding whitespace |
| SearchFilter.PackageFoundByMeta | assets/js/script.js:226-230 | an indexed package is found by any non-blank query occurring in one of its trimmed, lower-cased meta texts |
| SearchOverlay.MetaLine | assets/js/script.js:251 | the meta line is the type alone when the region is empty, and otherwise is as long as the type, " • " and the region together |
| SearchOverlay.MetaLineParts | assets/js/script.js:251 | the meta line starts with the type and, with a region, ends with that region |
| SearchOverlay.EntryFor | assets/js/script.js:248-251 | the entry rendered for a record is a result bound to that record |
| SearchOverlay.Shown | assets/js/script.js:241-251 | the container holds one to twelve entries; it holds just the placeholder exactly when there are no matches; otherwise it holds the first min(12, n) matches, in order, one entry each |
| SearchOverlay.ShownEntries | assets/js/script.js:248-251 | each result shows its record's title, a meta line of the type alone or the type, " • " and the region, and a link to the record's url |
| SearchOverlay.ShownPrefix | assets/js/script.js:248 | the shown results are a prefix of the matches, and all of them are shown when there are at most twelve |
| SearchOverlay.ShownIs | assets/js/script.js:248-251 | for a non-empty list of matches, a list holding the entries of the first min(12, n) matches in order is exactly what the container shows |
| SearchOverlay.ShownFrom | assets/js/script.js:248-251 | every result shown for matches taken from the index comes from the index |
| SearchOverlay.SiteSearch.constructor | assets/js/script.js:181-239 | set-up collects the index once from the cards; the overlay starts closed, the container empty and nothing highlighted |
| SearchOverlay.SiteSearch.Open | assets/js/script.js:188-193 | the overlay becomes active when it exists and stays closed otherwise; results and highlights are unchanged |
| SearchOverlay.SiteSearch.Close | assets/js/script.js:194-201 | with an overlay: inactive, container emptied, every highlight removed; without one: nothing changes |
| SearchOverlay.SiteSearch.KeyDown | assets/js/script.js:206 | Escape closes the overlay, and any other key changes nothing |
| SearchOverlay.SiteSearch.OverlayClick | assets/js/script.js:205 | a click on the backdrop itself closes the overlay, and a click inside it changes nothing |
| SearchOverlay.SiteSearch.Render | assets/js/script.js:241-265 | with a container, the container afterwards holds exactly `Shown(matches)`; without one, nothing changes; open state and highlights are kept, and the invariant that every result comes from the index is kept |
| SearchOverlay.SiteSearch.Input | assets/js/script.js:273-276 | typing renders exactly the shown entries of the filtered index |
| SearchOverlay.SiteSearch.Select | assets/js/script.js:252-262 | the placeholder does nothing. A result closes the overlay. For an in-page url, exactly that card is highlighted afterwards and the page scrolls to the section when it exists. Any other non-empty url navigates there. At most one indexed card is ever highlighted |
| SearchOverlay.DelhiExample | assets/js/script.js:267-271 | for the index of a single Delhi record, " DEL " shows that one result and "paris" shows the placeholder |
| SearchOverlay.DelhiCardRecord | assets/js/script.js:212-224 | a destination card titled "Delhi" in "North India" becomes the record with those texts and the url `destinations.html#delhi` |
| SearchOverlay.DelhiIndex | assets/js/script.js:209-237 | a page whose only card is that Delhi card is indexed as that single record |
| SearchOverlay.DelhiWalkthrough | assets/js/script.js:252-262 | on such a page, typing " DEL " and selecting the result navigates to `destinations.html#delhi` and leaves no card highlighted; typing "paris" and clicking the placeholder does nothing |
| Routing.SubmitAction | assets/js/script.js:106-116 | a blank or missing destination gives the simulated search; a value containing `delhi` goes to `destinations.html#delhi`; any other value goes to `destinations.html` |
| Routing.SubmitNormalized | assets/js/script.js:107 | the form ignores surrounding whitespace and letter case |
| Routing.SubmitSameValue | assets/js/script.js:107-111 | two destination values with the same normalised form lead to the same action |
| Routing.SubmitAgreesWithIndexOnDelhi | assets/js/script.js:109-111 | a destination title that the index sends to the Delhi anchor is also sent there by the form |
| Routing.SubmitDiffersFromIndex | assets/js/script.js:110 | the converse fails: "New Delhi" is indexed with `destinations.html`, but the form sends it to the Delhi anchor |
| Routing.HeroAction | assets/js/script.js:286-303 | a label with neither "explore" nor "book" does nothing; a label containing "explore" scrolls to `#destination` when that section exists and otherwise navigates to `destinations.html`; any other label containing "book" scrolls to `#package` when present and otherwise navigates to `packages.html` |
| Routing.HeroExploreFirst | assets/js/script.js:289-296 | a label with both words counts as "explore" |
| Routing.HeroNormalized | assets/js/script.js:286 | the button ignores its label's surrounding whitespace and letter case |
| Routing.OnScroll | assets/js/script.js:34-42 | the header and the go-to-top button are always active together, exactly when `scrollY >= 200` |
| Routing.OnScrollMonotone | assets/js/script.js:35 | scrolling further down never hides the header again |
| Routing.Toggled | assets/js/script.js:18-19 | a click flips both the navbar class and the overlay class |
| Routing.ToggleTwice | assets/js/script.js:15-22 | two clicks restore the menu |
| Routing.ToggleKeepsInSync | assets/js/script.js:18-19 | a navbar and overlay that agree keep agreeing |
| Routing.NavMenu.Click | assets/js/script.js:15-22 | the handler's new state is the toggled old state |

## Left out

- Smooth scrolling of `href="#..."` links (lines 47-58), the intersection observer (63-80), the form inputs' focus and blur effects (88-100), the notification pop-up (135-162) and the hero parallax (167-176). They are visual effects outside the search and routing rules.
- The "More destinations" and booking buttons and their fallbacks (lines 307-363). They are outside the modelled core.
- Routing.SubmitAction: the "Searching..." text, the disabled button, the 1.2-second timer and the notification (lines 118-127) are one `SimulateSearch` action.
- SearchOverlay.SiteSearch.Open: the 50 ms timer that focuses the input (line 192) is not modelled. Neither is the `aria-hidden` attribute (lines 191 and 197), which always mirrors the `active` class.
- Text.LowerChar: `toLowerCase` is modelled for ASCII letters only. Unicode case mapping (accented capitals, special cases that change length) is not modelled.
- SearchOverlay.Shown: a result is modelled as a structured entry. How `innerHTML` parses the title and region is not modelled, and neither is any markup they contain.
- SearchOverlay.SiteSearch.Select: the default navigation of the "View" link inside a result is not modelled, nor is the order of the click's effects relative to that navigation. Only the click handler on the result is modelled.
- SearchOverlay.SiteSearch.Select: highlights are a set of card identities, not classes on elements. Cards outside the index never carry the highlight class.
- Routing.OnScroll: `scrollY` is an integer here; the browser's fractional offsets are not modelled.
- Routing.NavMenu.Click: the handler is attached to the open button, the close button, the overlay and every nav link. The model has one `Click`, because all of them run the same toggle. A missing navbar or overlay element, which would make the handler throw, is not modelled.
- The index is collected once. Cards added to the page later are not indexed, in the code as in the model.
- SearchOverlay.EntryFor: its own contract says only that the entry is a result bound to its record. The title, meta line and link each entry shows are stated by `SearchOverlay.ShownEntries`.
- SearchIndex.DestinationRecord: its own contract does not give the title and region texts. `SearchIndex.DestinationTexts` and `SearchIndex.IndexTexts` state them, which keeps every use of the function cheap to verify.
- SearchIndex.PackageRecord: its own contract does not give the title text. `SearchIndex.PackageTitle` and `SearchIndex.IndexTexts` state it, for the same reason.
