# person-page: the logic inside the résumé page

A model, in Dafny, of the rules that the single-page academic résumé site
applies to its profile document. The rules come from `App.tsx` and
`components/Badge.tsx`, and the record shapes come from `types.ts`. The model
covers the following.

- **Year parsing.** `parseInt(year) || 0` follows section 19.2.5 of ECMAScript
  2023. The model covers whitespace skipping, the sign, the `0x` prefix and the
  digit run (`JsParseInt`).
- **Publication order.** A copy of the list is sorted by parsed year,
  descending. `Array.prototype.sort` is stable (section 23.1.3.30 of ECMAScript
  2023), modelled as a stable insertion sort that is generic over its key
  (`StableSort`, `PublicationOrder`).
- **Publication banner counts.** Total, CCF-A/B or 一区, and ESI
  (`PublicationStats`).
- **Tag badges.** Each tag is classified as critical, notable or default by
  priority-ordered substring tests (`Badge`).
- **Author line.** The line is split on the capturing pattern
  `(S\. Liang\*?|梁爽\*?)`, following the `@@split` loop of ECMAScript 2023,
  section 22.2.6.14, with the pattern replaced by its literal alternatives.
  Parts are then bolded (`AuthorSplit`).
- **Inventor line.** The line is split on `;` or `；`. Each piece is trimmed,
  `，` follows every piece but the last, and pieces that mention 梁爽 are bold
  (`InventorSplit`). Both lines render to bold or plain spans and share the
  owner's name in its two spellings (`Rendering`).
- **Scroll spy.** The handler probes `scrollY + 100` against each section's
  `offsetTop`/`offsetHeight`, in the fixed order. The last covering section
  wins, and with no covering section the active one stays (`ScrollSpy`).
- **Page state.** The state holds `isMenuOpen`, `activeSection`, `resumeData`,
  `loading` and `error`. Events are the fetch outcome, navigation clicks, the
  menu toggle and scroll events. One of the loading, error or main screens is
  chosen (`AppState`).
- **Main-screen sections** (`Sections`):
  - the logo text (the name up to its first space);
  - project cards, where a leading role is green and funding shows only when
    truthy;
  - numbered publication entries with their badges;
  - the patent block, where software works get the purple badge and an absent
    or empty list gives a placeholder.

Strings are `seq<char>`. JavaScript `includes`, `trim` and `toLowerCase` are
in `Strings`. The `trim` whitespace set is the full WhiteSpace and
LineTerminator set of ECMAScript 2023, sections 12.2 and 12.3.

The page bolds any author part that includes `Liang`, not just the matched
names; see "Findings". The model renders the publication list as the page
does, and keeps a corrected list beside it.

## Model

| member | source | states |
|---|---|---|
| `JsParseInt.ParseYearDecimal` | App.tsx:51-52 | for leading whitespace, an optional sign, a decimal numeral and a rest that does not start with a digit, the parsed year is the numeral's place value, negated for `-` |
| `JsParseInt.ParseYear` | App.tsx:51-52 | `parseInt(year) \|\| 0` is nonzero only for a year that holds a decimal digit |
| `JsParseInt.ParseYearWithoutLeadingNumeral` | App.tsx:51-52 | a year whose first non-blank text, after an optional sign, is not a digit parses to 0, even when digits come later ("Spring 2024", "abc2023", "- 5") |
| `JsParseInt.ParseYearWithoutDigits` | App.tsx:51-52 | a year string with no decimal digit parses to 0, because `NaN \|\| 0` is 0 |
| `JsParseInt.ParseYearPlainExamples` | App.tsx:51-52 | "2023" gives 2023 and "2024" gives 2024 |
| `JsParseInt.ParseYearSignedExample` | App.tsx:51-52 | " -12ab" gives -12: whitespace is skipped, the sign is kept and parsing stops at the first non-digit |
| `JsParseInt.ParseYearFallbackExamples` | App.tsx:51-52 | "" and "abc" give 0 |
| `JsParseInt.ParseYearHexExample` | App.tsx:51-52 | "0x7E8" gives 2024, because `parseInt` with no radix reads a `0x` prefix as hexadecimal |
| `JsParseInt.SkipSpaces` | App.tsx:51 | the index after the run of JavaScript whitespace: every skipped character is whitespace and the next one is not |
| `JsParseInt.DigitRunEnd` | App.tsx:51 | the end of the longest run of digits of the radix starting at the index |
| `StableSort.Sort` | App.tsx:50-54 | the result is a permutation of the input, in non-increasing key order |
| `StableSort.SortIsStable` | App.tsx:50-54 | for every key, the items with that key appear in the result in their input order |
| `StableSort.StableArrangementIsUnique` | App.tsx:50-54 | two non-increasing arrangements that agree on every key's subsequence are equal |
| `StableSort.SortIsTheStableSort` | App.tsx:50-54 | any non-increasing arrangement that keeps each key's input order is the sort's result |
| `PublicationOrder.SortedPublications` | App.tsx:48-55 | the displayed list is a permutation of the publications, newest parsed year first, and publications with equal parsed years keep their input order |
| `PublicationOrder.DisplayedOrderIsForced` | App.tsx:50-54 | the displayed order does not depend on which stable algorithm the engine uses: any stable newest-first arrangement equals it |
| `PublicationOrder.SortedPublicationsExample` | App.tsx:50-54 | years "2023", "", "abc", "2024" are displayed as 2024, 2023, "", "abc" |
| `PublicationStats.CountWhere` | App.tsx:61-66 | a filter count is at most the list length; it is 0 exactly when no publication passes, and the full length exactly when all pass |
| `PublicationStats.CountWhereIgnoresOrder` | App.tsx:61-66 | two lists with the same multiset of publications have the same count |
| `PublicationStats.ComputeStats` | App.tsx:58-68 | the empty list gives 0/0/0; total is the length; 0 <= highLevel, esi <= total; highLevel is 0 exactly when no publication has a CCF-A, CCF-B or 一区 tag; esi is 0 exactly when no tag lower-cases to include "esi" |
| `PublicationStats.StatsOfOne` | App.tsx:58-68 | one publication counts 1 in total, and 1 in highLevel or esi exactly when its tags qualify |
| `PublicationStats.StatsAreAdditive` | App.tsx:58-68 | the counts of a concatenation are the sums of the counts |
| `PublicationStats.StatsIgnoreDisplayOrder` | App.tsx:58-68 | counting the sorted list gives the same numbers as counting the document's list |
| `Strings.ToLower` | App.tsx:65 | `toLowerCase` keeps the length and lower-cases each ASCII capital, leaving every other character as it is |
| `PublicationStats.EsiTagIgnoresCase` | App.tsx:65 | a tag counts as ESI exactly when some position holds "esi" in any mix of upper and lower case |
| `Badge.Classify` | components/Badge.tsx:18-24 | every tag gets exactly one category: critical exactly when it holds CCF-A, ESI or 一区; notable exactly when it holds CCF-B or 二区 and no critical marker; default exactly when it holds none of the five |
| `Badge.BadgeStyle` | components/Badge.tsx:8-24 | the style starts from the primary palette entry but is overwritten on every branch, so it is always the tag's category style and the variant never shows |
| `Badge.ClassifyIsFirstMatchingRule` | components/Badge.tsx:18-24 | classification is the first rule in priority order (critical markers, then notable markers) that matches, with default as the fallback |
| `Badge.HighLevelTagIsHighlighted` | components/Badge.tsx:18-21 | a tag that makes a publication count as high level is never shown with the default badge |
| `Badge.HighlightedTagsNotCountedHighLevel` | components/Badge.tsx:18-21 | the badge and the banner disagree: "二区" is notable and "ESI" critical, yet neither counts as high level |
| `Badge.ClassifyExamples` | components/Badge.tsx:18-24 | CCF-A and "ESI highly cited" are critical, CCF-B and 二区 notable, and a tag with no marker default |
| `Badge.EsiTestsDisagreeOnCase` | components/Badge.tsx:18 | "esi highly cited" gets the default badge but counts toward the banner's ESI figure, because only the banner lower-cases |
| `AuthorSplit.MatchAt` | App.tsx:343 | a match at a position is one of the four name tokens and lies inside the line; no match means neither spelling starts there |
| `AuthorSplit.SplitFromIsWellSplit` | App.tsx:343 | from a position before which nothing matched, the split loop yields an odd number of parts: name tokens at odd indices, name-free text at even ones, no bare name followed by an untaken `*`, concatenating back to the text |
| `AuthorSplit.SplitAuthors` | App.tsx:343 | `authors.split(...)` is a well-formed split whose parts concatenate back to the author line |
| `AuthorSplit.NameFreeStaysWhole` | App.tsx:343 | a line that mentions neither spelling is one part |
| `AuthorSplit.AuthorSpans` | App.tsx:343-359 | as written: one span per part of the split, in order, and a span is bold exactly when its text includes `Liang` or `梁爽`; hence every matched name is bold and the spans read back the author line |
| `AuthorSplit.AuthorSpansIntended` | App.tsx:343-359 | corrected: one span per part of the split, in order, bold exactly when the part is a matched name |
| `AuthorSplit.AsWrittenBoldsMore` | App.tsx:355-359 | the two renderings show the same parts; everything the corrected one bolds the page bolds too, and the page's extra bold parts are plain parts that include `Liang` |
| `AuthorSplit.OtherLiangIsBold` | App.tsx:355-359 | "Y. Liang" is bold as written though it is not the owner's name; the corrected rendering leaves it plain |
| `InventorSplit.SplitInventors` | App.tsx:399 | one piece more than the line has `;`/`；` separators, no separator inside a piece, and the pieces rejoined with the separators give back the line |
| `InventorSplit.SplitOfInterleave` | App.tsx:399 | splitting separator-free pieces joined by separators gives back exactly those pieces and separators |
| `InventorSplit.SuffixedIsJoin` | App.tsx:401 | writing each piece followed by `，`, except the last, is `join('，')` |
| `InventorSplit.InventorSpans` | App.tsx:399-403 | span `i` shows trimmed piece `i` followed by `，` unless it is the last, so the line reads the trimmed pieces joined with `，`; span `i` is bold exactly when piece `i` mentions 梁爽 |
| `InventorSplit.InventorSpansExample` | App.tsx:399-403 | "张三; 梁爽；李四" renders as 张三，梁爽，李四 with only the middle piece bold |
| `Strings.TrimIsTrimmed` | App.tsx:401 | `trim` keeps a slice of the text, with only whitespace removed on either side, and neither end of the kept slice is whitespace |
| `Strings.TrimKeepsSolidPattern` | App.tsx:400-401 | testing for a whitespace-free name before or after trimming gives the same answer |
| `ScrollSpy.LastCovering` | App.tsx:84-93 | reference definition: with some covering section, the result is one that covers the probe point and no later section covers it; with none, the previous active section |
| `ScrollSpy.HandleScroll` | App.tsx:84-93 | the handler's loop over the five sections computes the reference definition at `scrollY + 100` |
| `ScrollSpy.SoleCoverWins` | App.tsx:88-93 | a section that alone covers the probe point becomes active, whatever was active before |
| `ScrollSpy.LastCoveringIgnoresFallback` | App.tsx:88-93 | when some section covers the point, the previously active section plays no part |
| `ScrollSpy.ScrollIsIdempotent` | App.tsx:84-93 | a second scroll event at the same position changes nothing |
| `ScrollSpy.ScrollExamples` | App.tsx:86-93 | with Home [0,100), About [100,300), Projects [300,500): the probe at 150 gives About, the probe at 300 gives Projects, and a probe past every section keeps the active one |
| `AppState.Step` | App.tsx:36-157 | only a fetch success changes the data; only a fetch outcome ends loading; only a failure sets the error; a navigation click or menu toggle changes nothing unless the main screen, the only one with buttons, is shown |
| `AppState.ScreenOf` | App.tsx:108-124 | exactly one screen: loading exactly while loading; main exactly when loading is over, the error is not truthy and there is data, showing that data; otherwise the error screen with the error text |
| `AppState.DisplayedPublications` | App.tsx:48-55 | no publications before the data is there; afterwards a permutation of the document's list, newest parsed year first, with publications of equal parsed year in their document order |
| `AppState.StatsOf` | App.tsx:57-68 | the banner counts, taken over the displayed list, are 0/0/0 without data and otherwise the counts of the document's own publication list |
| `AppState.ToggleIsInvolution` | App.tsx:153-157 | on the main screen the menu button flips the menu, and pressing it twice restores the state |
| `AppState.NavClickActivates` | App.tsx:71-78 | on the main screen a navigation click closes the menu and activates its target whatever was active, leaves the document state alone, and a repeated click changes nothing |
| `AppState.ScrollNeedsListener` | App.tsx:81-98 | scroll events do nothing while loading or without data; otherwise they set the active section by the scroll spy |
| `AppState.UiEventKeepsScreen` | App.tsx:108-124 | no click, toggle or scroll changes which screen is shown |
| `AppState.UiEventsKeepDocument` | App.tsx:71-98 | no sequence of user events changes the data, the loading flag or the error |
| `AppState.StillLoading` | App.tsx:20-115 | from the initial state, until the fetch settles, the loading screen stays and the whole state stays initial (Home active, menu closed) whatever the user does |
| `AppState.UiEventsWhileLoading` | App.tsx:81-115 | while loading, no click, toggle or scroll changes anything: the loading screen has no buttons and the scroll listener is not attached |
| `AppState.FetchDecidesScreen` | App.tsx:20-44 | once the fetch settles, loading is over for good: a delivered document gives the main screen with that document, first shown with Home active and the menu closed; a `null` body the error screen with an empty message; a failure the error screen with the fixed message |
| `AppState.ListeningAfterLoad` | App.tsx:82-93 | on the main screen a scroll event either keeps the active section or activates one that covers the probe point |
| `Sections.LogoText` | App.tsx:134 | the logo text is a prefix of the name with no space, which is either the whole name or stops at a space |
| `Sections.LogoTextIsUnique` | App.tsx:134 | any prefix with those three properties is the logo text |
| `Sections.LogoTextExamples` | App.tsx:134 | "Shuang Liang" gives "Shuang", "梁爽" gives itself, and "" gives "" |
| `Sections.EducationCardOf` | App.tsx:274-281 | an education entry shows its degree, institution and period, and its major exactly when the major is truthy |
| `Sections.LeadRoleHasMarker` | App.tsx:295 | a leading role contains 主持 at some position |
| `Sections.MarkerMakesLeadRole` | App.tsx:295 | any role with 主持 inside is a leading role |
| `Sections.ProjectCardOf` | App.tsx:294-316 | the card shows the role, is green exactly for a leading role, and shows the funding exactly when it is truthy |
| `Sections.ProjectCardExamples` | App.tsx:294-316 | role 主持 with empty funding is green and shows no funding; role 参与 is not green |
| `Sections.SoftwareWorkExamples` | App.tsx:387 | 软件著作权 and 软著 are software works; 发明专利 is not |
| `Sections.PatentsSection` | App.tsx:380-415 | the placeholder shows exactly when the patent list is absent or empty; otherwise one card per patent in order, showing its kind, number, title and date, the software badge exactly for a software work, the rendered inventor line (trimmed inventors joined with `，`, bold where 梁爽 appears), and the country exactly when it is truthy |
| `Sections.Badges` | App.tsx:366-368 | no badges without tags, otherwise one per tag in order, each the tag's category: critical exactly with a critical marker, notable exactly with a notable marker and no critical one, default otherwise |
| `Sections.PublicationList` | App.tsx:341-369 | entry `i` is the `i`-th publication of the display order, numbered `i + 1`, showing its title, venue, year, badges and the page's author rendering; parsed years never increase down the list |
| `Sections.EveryPublicationListed` | App.tsx:341-369 | every publication of the document has an entry showing its title, year and author line |
| `Sections.OnlyDocumentListed` | App.tsx:341-369 | every entry shows the title, year and author line of a publication of the document |
| `Sections.PublicationListIntended` | App.tsx:341-369 | corrected: the same list with only the matched names bold |
| `Sections.ListsDifferOnlyInBold` | App.tsx:355-359 | the page's list and the corrected one agree entry for entry in everything but the bold flags of author parts |

## Left out

- The `fetch('./profile.json')` call and JSON parsing (App.tsx:28-45) are network I/O. Only their outcomes enter the model, as events: a document, a `null` body, or a failure.
- The document's shape is not validated by the page. A body of the wrong shape is not modelled.
- The scroll spy runs only on scroll events, never on mount. The active section therefore changes only on scrolls and clicks, and the model has no mount event.
- The `console.error` call is logging.
- Listener registration and removal, `document.getElementById` and `scrollIntoView` are DOM plumbing. Section geometry is an input map, and a section missing from it is one the DOM does not find.
- `window.scrollY` can be fractional. It is modelled as an integer.
- JSX markup, CSS class strings, icons, `components/Section.tsx` and `vite.config.ts` are presentation and build configuration.
- The footer's `new Date().getFullYear()` reads the clock.
- JsParseInt.ParseYear: gives the exact integer value. It does not model the rounding of values above 2^53 to floating point, nor `-0`; `-0 || 0` is 0 anyway. A numeral long enough to overflow becomes `Infinity`, and two such years sort as equal, because `Infinity - Infinity` is NaN and the sort reads NaN as 0. The model orders them by their exact values instead.
- Strings.ToLower: maps only ASCII letters. Full Unicode case mapping is not modelled. The one non-ASCII mapping that can produce "i" (U+0130) could make a tag count toward ESI that the model does not count.
- Strings are sequences of Unicode scalar values, not UTF-16 code units. Every literal the page matches is in the Basic Multilingual Plane, so the two views agree on them.
- The regular-expression engine is not modelled. Both patterns are replaced by their literal alternatives.
- The `Patent.type` field is named `kind`, because `type` is a Dafny keyword.
- `patents` is modelled as optional, because the page tests it for presence.
- Profile and experience fields are rendered as they are and carry no rules. The education entries' one rule, a major shown only when truthy, is modelled.

## Findings

| source | as written | input that shows it | evidently intended | confidence | as-written member | corrected member |
|---|---|---|---|---|---|---|
| App.tsx:355-359 | a split part is bold when it includes `Liang` or `梁爽` | authors "Y. Liang": no name matches, yet the single plain part is bold | bold exactly the matched parts (odd indices of the capturing split) | not executed | `AuthorSplit.AuthorSpans` | `AuthorSplit.AuthorSpansIntended` |
