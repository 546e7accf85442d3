# Content extractor — a Dafny model of its extraction core

The system is a desktop application for scraping product cards: title,
description, image and price. It has a web view or an embedded browser page,
and the user collects these values from it.

- **Capture scripts.** The preload scripts run inside the page. The user
  clicks an element for a field. The script works out its value, builds a
  CSS selector for it and marks it with the `extractor-selected` class.
  - In **manual** mode the script sends one record per click.
  - In **template** mode it remembers one exemplar element per field.
  - `findSimilar` walks up to the exemplar's "card" container. It replays the
    remembered fields in every structurally similar container on the page,
    drops duplicates, and reports the new records.
- **Renderer.** The renderer keeps the list of records. It fills the field of
  the current (or first empty) record, or saves incoming records.
- **Main-process services.** These store the records in memory and write
  them out as CSV or JSON.
- **Security helpers.** A small module escapes HTML, rejects dangerous URL
  schemes, cleans file paths, checks emails and passwords, rate-limits
  callers and redacts secrets before logging.

## How the model is organised

Each capture script, service and helper is modelled as a pure function
over immutable data. The modules follow the program's parts:

| module | what it stands for |
|---|---|
| `Wrappers` | `Option` / `Result` |
| `Sequences` | order-preserving selection (`filter`) and distinct lists |
| `Text` | JavaScript string helpers (`trim`, `split`, `join`, `toLowerCase`, number rendering) |
| `Dom` | the page as a tree of elements addressed by child-index paths; attributes, `classList`, `:nth-of-type`, style outline |
| `Css` | the subset of selectors the scripts generate, with `querySelector` / `querySelectorAll` |
| `Patterns` | the price, `url(...)` and currency regular expressions, as scanners with leftmost-match search |
| `PageMarks` | what adding or removing a class or outline does to the rest of the page |
| `Extraction` | values, records, the field template and the messages the scripts send |
| `BrowserEngine`, `BrowserSession` | `src/preload/browserPreload.js`: value extraction, selectors, container detection, similarity, the session state machine and `findSimilar` |
| `WebviewEngine`, `WebviewSession` | `src/preload/webviewPreload.js`: its own value extraction and selectors, hover tracking, listener registration, clicks |
| `Renderer` | the data handling in `src/renderer/renderer.js`: validation helpers, the record store, the injected click script and the routing of extracted data |
| `DataStore` | `src/main/services/data.js` |
| `CsvExport` | `src/main/services/export.js` |
| `Security`, `RateLimiter` | `src/main/utils/security.js` |

Some behaviours of the code are worth noting:

- **Template replay includes the exemplar's own card.** `findSimilar` skips
  only containers that themselves carry `extractor-selected`. The card
  holding the exemplar elements is therefore replayed too
  (`BrowserSession.ReplayContainer`).
- **No price match gives "".** When no pattern matches,
  `browserPreload.js`'s price extraction returns the empty string, not the
  raw text (`BrowserEngine.PriceSkipsFrom`). Only `webviewPreload.js` falls
  back to the text (`WebviewEngine.WebPriceOrder`).
- **Adjacent siblings need six children.** Two adjacent siblings with the
  same tag and classes are similar only when their parent has at least six
  children (`BrowserEngine.AdjacentSiblings`). This is because the ratio
  test divides by the parent's child count.
- **The similarity mark comes first.** The `extractor-similar` mark is put
  on the found elements before the duplicate check. A container whose
  record is dropped as a duplicate still ends up marked
  (`BrowserSession.ReplayContainer`: the marks are stated for every
  container, the record only for kept ones).

Three behaviours of the code are proved as they are, because they are what
the code does:

- **"From" never decides the price.** In `browserPreload.js` every text the
  "From" pattern matches is also matched, earlier or at the same place, by
  the currency-first pattern. So the "From" branch never decides the price
  (`Patterns.FromNeverDecides`).
- **A lone comma is a price.** The renderer's injected click script reads a
  price with `[\$€£¥]?[\d,]+\.?\d*`, which accepts a lone comma. So the
  text "a , b" gives the price "," (`Renderer.LoneCommaIsPrice`).
- **The webview selector ignores classes.** `webviewPreload.js`'s
  `generateSelector` computes a class selector and never uses it. Without
  an id it returns the path of tag names (`WebviewEngine.WebGenerateSelector`).

## Model

| member | source | states |
|---|---|---|
| Text.Trim | src/preload/browserPreload.js:226 | the trimmed text is the piece of the input between a run of leading and a run of trailing white space; it is empty exactly when the input is all white space, and otherwise starts and ends with a non-space character |
| Text.TrimIdempotent | src/renderer/renderer.js:35 | trimming an already trimmed string changes nothing |
| Text.Lower | src/main/utils/security.js:40 | lower-casing keeps the length and maps each character on its own |
| Text.EndsWith | src/main/services/export.js:59 | `endsWith` holds exactly when the suffix is the tail of the string |
| Text.Split | src/preload/browserPreload.js:262 | the pieces of a split contain no separator and join back into the input; there is always at least one piece |
| Text.SplitJoin | src/main/services/export.js:35-38 | splitting the join of separator-free pieces gives the pieces back |
| Text.ParseNatToString | src/main/services/export.js:26 | the decimal rendering of a record id parses back to the id |
| Text.NatToStringInjective | src/main/services/export.js:26 | distinct ids render as distinct CSV cells |
| Dom.GetAttr | src/preload/browserPreload.js:204 | `getAttribute` finds a value exactly when the element has an attribute of that name, and the value is that of the first such attribute |
| Dom.ClassList | src/preload/browserPreload.js:412 | `classList` is a list of distinct, non-empty, space-free tokens |
| Dom.AddClass | src/preload/browserPreload.js:193 | `classList.add` appends the token when it is absent and changes nothing else on the element |
| Dom.RemoveClass | src/preload/browserPreload.js:533 | `classList.remove` removes exactly that token, keeping every other attribute, the tag and the children |
| Dom.ClassListRoundTrip | src/preload/browserPreload.js:193 | writing a well-formed token list into `class` and reading `classList` back gives the same list |
| Dom.TokensOfJoin | src/preload/browserPreload.js:193 | tokenising space-joined tokens gives the tokens back |
| Dom.NthOfType | src/preload/browserPreload.js:286-289 | the `:nth-of-type` index lies between 1 and the number of same-tag siblings |
| Dom.BodyPath | src/preload/browserPreload.js:282 | `document.body`, when present, is a top-level child tagged BODY |
| Dom.FirstWithTag | src/preload/browserPreload.js:213 | `querySelector('img')` finds the first candidate in document order with that tag, and reports none only when there is none |
| Dom.PreorderDistinct | src/preload/browserPreload.js:360 | document order lists every element of the page once |
| Dom.AddClassAtEffect | src/preload/browserPreload.js:193 | marking one element adds exactly that class to exactly that element |
| Dom.RemoveClassAtEffect | src/preload/browserPreload.js:533-534 | unmarking one element removes exactly that class from exactly that element |
| Dom.SetOutlineAtEffect | src/preload/browserPreload.js:155-163 | setting or clearing an outline changes the outline of that element only and no class anywhere |
| Css.QuerySelectorAll | src/preload/browserPreload.js:360 | the result is absent exactly when the selector does not parse; otherwise it is the matching elements of the page, each once, in document order |
| Css.QuerySelector | src/preload/browserPreload.js:473 | absent exactly on a parse error; a found element is the first descendant of the scope in document order that matches; "none" means no descendant matches |
| Css.FirstMatching | src/preload/browserPreload.js:473 | the found element is the first of the candidates in document order that matches |
| Css.FilterMatching | src/preload/browserPreload.js:360 | keeps exactly the candidates the selector matches, in their order |
| Patterns.Search | src/preload/browserPreload.js:230 | a regular-expression search reports the leftmost position where the pattern matches, and none only when it matches nowhere |
| Patterns.FirstMatch | src/preload/browserPreload.js:230-232 | the match text is the piece of the input at the leftmost match |
| Patterns.FirstMatchIsTrimmed | src/preload/browserPreload.js:232 | calling `trim` on a price match changes nothing |
| Patterns.MatchTrimNonEmpty | src/preload/webviewPreload.js:290-292 | every price match holds a digit or comma, so it never trims to "" |
| Patterns.CurrencyAmountAt | src/preload/browserPreload.js:229 | a currency-first match contains a digit or comma |
| Patterns.AmountAt | src/preload/browserPreload.js:229 | an amount starts and ends with a digit or comma |
| Patterns.KeywordFirstAlternative | src/preload/webviewPreload.js:287 | the keyword alternation gives the result of the first keyword that matches, and fails exactly when every keyword fails |
| Patterns.FromContainsCurrencyMatch | src/preload/browserPreload.js:235 | the amount of a "From" match is itself a currency-first match |
| Patterns.FromNeverDecides | src/preload/browserPreload.js:229-239 | whenever the "From" pattern matches, the currency-first pattern has already matched, so the "From" branch is never taken |
| Patterns.UrlCapture | src/preload/browserPreload.js:209 | the captured background URL is the leftmost `url(...)` in the value; none means there is no `url(...)` anywhere |
| Patterns.StandardCurrenciesWellFormed | src/preload/browserPreload.js:229 | the currency symbols and codes are non-empty and start and end with a non-space, non-digit character |
| Patterns.NoTokenAt | src/preload/webviewPreload.js:285 | where no currency token occurs, neither currency-first alternative can match |
| PageMarks.BodyClass | src/preload/browserPreload.js:307-315 | adding or removing the selecting class on `body` changes that class on `body` only |
| PageMarks.AddClassShape | src/preload/browserPreload.js:193 | marking an element keeps the page's tree and changes only that element's class |
| PageMarks.RemoveClassShape | src/preload/browserPreload.js:533 | unmarking an element keeps the page's tree and changes only that element's class |
| PageMarks.OutlineShape | src/preload/browserPreload.js:155-163 | outlining keeps the tree and every class |
| Extraction.Prop | src/main/services/export.js:26-33 | a missing property reads as `undefined`, a present one as its value |
| Extraction.Bind | src/preload/browserPreload.js:172 | binding a field keeps the template well formed and appends the field to the key order only if it is new |
| Extraction.BoundFields | src/preload/browserPreload.js:349 | the fields to replay are exactly the template keys that hold a binding, in key order, so the first is the first bound key |
| Extraction.FirstNonEmpty | src/preload/browserPreload.js:220 | `a \|\| b \|\| … \|\| ""` yields the first non-empty candidate, or "" |
| Extraction.ManualItem | src/preload/browserPreload.js:181-186 | a manual record has the clicked field plus `url`, `timestamp` and `verified: false`, the later keys winning on a clash |
| BrowserEngine.ImageSource | src/preload/browserPreload.js:203-205 | an image element reads `src`, then `data-src`, then `data-lazy`; the result is null exactly when the first two are empty and `data-lazy` is missing |
| BrowserEngine.ExtractValue | src/preload/browserPreload.js:200-252 | every field except `image` yields a value; the price is "" or a piece of the element's trimmed text |
| BrowserEngine.ExtractImage | src/preload/browserPreload.js:202-217 | an IMG reads its source chain; another element with a background image gives the leftmost `url(...)` capture or "", never looking at its children; otherwise the source of the first descendant IMG, or "" |
| BrowserEngine.Price | src/preload/browserPreload.js:225-247 | the price is "" or a piece of the text |
| BrowserEngine.PriceSkipsFrom | src/preload/browserPreload.js:225-247 | the price is the currency-first match, else the number-then-currency match, else "" |
| BrowserEngine.ExtractTitle | src/preload/browserPreload.js:219-220 | the title is the first non-empty of `title`, `alt`, trimmed text and `aria-label` |
| BrowserEngine.ExtractDescription | src/preload/browserPreload.js:222-223 | the description is the first non-empty of trimmed text, `data-description` and `aria-description` |
| BrowserEngine.ExtractOther | src/preload/browserPreload.js:249-250 | any other field is the trimmed text, else the element's `value` |
| BrowserEngine.KeptClasses | src/preload/browserPreload.js:262-263 | keeps exactly the non-blank class pieces that are not one of the state names `active`, `hover`, `selected`, `focus`, in their order and with their repetitions |
| BrowserEngine.Take | src/preload/browserPreload.js:264 | `slice(0, n)` is a prefix of length n, or the whole list when shorter |
| BrowserEngine.DataAttrs | src/preload/browserPreload.js:270-271 | keeps exactly the `data-*` attributes whose names mention neither "index" nor "id", in attribute order |
| BrowserEngine.PathSegments | src/preload/browserPreload.js:280-295 | the path has at most four segments and no more than the element's depth |
| BrowserEngine.PathSegmentsAreSegments | src/preload/browserPreload.js:282-294 | the k-th segment from the end describes the k-th ancestor |
| BrowserEngine.PathSegmentsStop | src/preload/browserPreload.js:282 | the walk never includes `body` and stops at four segments, at the root or at `body` |
| BrowserEngine.SelectorPath | src/preload/browserPreload.js:280-295 | the loop builds exactly the path of segments |
| BrowserEngine.GenerateSelector | src/preload/browserPreload.js:254-302 | the selector is `#id`, else tag with up to three kept classes, else tag with data attributes, else the path, else the tag, in that order; it equals the selector function the replay and the stored bindings use |
| BrowserEngine.FirstCardClass | src/preload/browserPreload.js:434-439 | picks the first class containing "card", "item", "menu" or "col-" (not "product", which the container test accepts), and none only when no class does |
| BrowserEngine.CardAt | src/preload/browserPreload.js:411-446 | a card class is reported only when the element is not the root, carries a class with a card marker (`card`, `item`, `product`, `menu`, `col-`) and at least two children of its parent carry a `col-` class or one of its classes; the class reported is then the first card class; when those tests pass and a card class exists, one is reported |
| BrowserEngine.CardWalk | src/preload/browserPreload.js:411-450 | the walk finds the nearest ancestor, within eight levels, where the card test and the sibling test succeed and a card class exists; none means no ancestor within reach passes |
| BrowserEngine.LayoutWalk | src/preload/browserPreload.js:452-466 | the second walk finds the nearest layout ancestor within five levels; none means none within reach |
| BrowserEngine.ContainerSelector | src/preload/browserPreload.js:407-469 | the container selector is the found card class, else the layout selector of the found layout ancestor, else the element's tag |
| BrowserEngine.CardSelectorIsCardClass | src/preload/browserPreload.js:434-442 | when the card walk succeeds, the selector names a card class of that ancestor |
| BrowserEngine.SiblingCount | src/preload/browserPreload.js:425-431 | the sibling count is the number of children that carry a `col-` class or share a class with the card candidate |
| BrowserEngine.IsStructurallySimilar | src/preload/browserPreload.js:489-514 | similar exactly when the tags agree, the class overlap is not too low and, when both have a parent, their child indexes are close relative to the larger sibling count |
| BrowserEngine.ThresholdsAgree | src/preload/browserPreload.js:497-510 | the integer tests used in the model agree with the source's fractional thresholds 0.3 and 0.8 |
| BrowserEngine.SimilarAgreesWithFractions | src/preload/browserPreload.js:489-514 | the similarity test computed with integers decides exactly as the script's fractional test with thresholds 0.3 and 0.8 |
| BrowserEngine.SimilarToItself | src/preload/browserPreload.js:489-514 | every element is similar to itself |
| BrowserEngine.AdjacentSiblings | src/preload/browserPreload.js:504-510 | two adjacent siblings with equal tag and classes are similar exactly when the parent has at least six children |
| BrowserEngine.FirstSimilar | src/preload/browserPreload.js:478-486 | the fallback returns the first candidate in order that has the reference's tag and is similar to it, and none only when no candidate is |
| BrowserEngine.FindInContainer | src/preload/browserPreload.js:471-487 | the exact selector's match wins; otherwise the result is the first similar descendant; none exactly when there is neither |
| BrowserEngine.IsDuplicate | src/preload/browserPreload.js:516-529 | a record is a duplicate exactly when some stored record matches it |
| BrowserSession.Init | src/preload/browserPreload.js:4-9 | the script starts idle, in manual mode, with no marks, records or bindings |
| BrowserSession.StartSelection | src/preload/browserPreload.js:304-310 | starting puts the session in selecting mode and marks `body`, changing nothing else |
| BrowserSession.StopSelection | src/preload/browserPreload.js:312-318 | stopping returns to idle and unmarks `body`, changing nothing else |
| BrowserSession.StopUndoesStart | src/preload/browserPreload.js:304-318 | starting then stopping leaves every class on the page as it was |
| BrowserSession.SetExtractionMode | src/preload/browserPreload.js:541-544 | switching mode changes the mode only |
| BrowserSession.HandleEvent | src/preload/browserPreload.js:126-164 | events are ignored unless selecting; hover outlines the target unless it is `body` or the root; mouse-out clears it; a click commits the target's extracted value and generated selector, marks the target and stops, and leaves every outline as it was |
| BrowserSession.ExtractData | src/preload/browserPreload.js:166-198 | a click records the value, binds the generated selector in template mode, sends the matching message, marks the element selected and stops selecting |
| BrowserSession.Commit | src/preload/browserPreload.js:166-198 | the commit binds the field in template mode, or appends and sends a record in manual mode; the page gains only the selected mark |
| BrowserSession.Record | src/preload/browserPreload.js:170-190 | template mode binds the field and sends an element-selected message; manual mode stores and sends one record |
| BrowserSession.MarkSelected | src/preload/browserPreload.js:193-194 | the clicked element gains the selected class and joins the highlighted list |
| BrowserSession.ClearHighlights | src/preload/browserPreload.js:531-539 | clearing removes the selected and similar marks from every tracked element and empties records and template |
| BrowserSession.ClearRemovesAllMarks | src/preload/browserPreload.js:531-539 | after clearing, no element of the page carries a selected or similar mark |
| BrowserSession.ClearIdempotent | src/preload/browserPreload.js:531-539 | clearing twice is the same as clearing once |
| BrowserSession.FilledIsTrimmedNonEmpty | src/preload/browserPreload.js:385 | a value counts as filled exactly when it is a string that does not trim to "" |
| BrowserSession.Draft | src/preload/browserPreload.js:367-375 | each replayed record starts with null fields, `verified: false`, the time and the URL |
| BrowserSession.Pick | src/preload/browserPreload.js:379-385 | a picked value comes from a descendant of the container and is filled |
| BrowserSession.PickIsFound | src/preload/browserPreload.js:380-385 | a value is picked exactly when the container lookup finds an element whose extracted value is filled |
| BrowserSession.FillField | src/preload/browserPreload.js:380-390 | a filled field sets that key of the record and marks the found element similar; otherwise nothing changes |
| BrowserSession.FillFields | src/preload/browserPreload.js:379-392 | replaying the fields only adds marks, and the record becomes valid once some field fills |
| BrowserSession.FillFieldsItem | src/preload/browserPreload.js:379-392 | only the replayed fields change, each to a filled value |
| BrowserSession.FillFieldsFilled | src/preload/browserPreload.js:377-392 | a record that became valid holds at least one filled field |
| BrowserSession.FillFieldsMarks | src/preload/browserPreload.js:388-389 | the page changes only by the similar mark on the elements listed as highlighted |
| BrowserSession.ReplayContainer | src/preload/browserPreload.js:364-397 | a container is kept exactly when it is unselected and its replay fills a field and duplicates no record; the kept record is that replay, appended; the page gains only similar marks |
| BrowserSession.ContainersLike | src/preload/browserPreload.js:358-360 | the container query fails exactly when the container selector does not parse |
| BrowserSession.ScanAll | src/preload/browserPreload.js:364-398 | the containers kept are exactly those, in query order, whose replay on the state left by the earlier ones is kept |
| BrowserSession.ScanContainer | src/preload/browserPreload.js:364-397 | one container step appends the container exactly when its replay is kept, and keeps the pass invariant |
| BrowserSession.FindSimilar | src/preload/browserPreload.js:343-405 | outside template mode nothing happens; otherwise the containers kept are exactly those, in query order, that are unselected, fill a field and duplicate no earlier record; their records are appended and announced in one message, and the page only gains similar marks |
| BrowserSession.FreshBatchAppend | src/preload/browserPreload.js:394-397 | appending a record that duplicates nothing keeps the batch fresh |
| BrowserSession.BatchPairwiseDistinct | src/preload/browserPreload.js:394-397 | no two records of a batch duplicate each other |
| WebviewEngine.ImageChain | src/preload/webviewPreload.js:259 | an image reads the first non-empty of `src`, `data-src` and `data-lazy` |
| WebviewEngine.WebExtractValue | src/preload/webviewPreload.js:255-300 | the price is the trimmed text or a piece of it; an image element reads its source chain |
| WebviewEngine.ImageWithoutSource | src/preload/webviewPreload.js:258-260 | an image element without sources gives "" |
| WebviewEngine.ImageOfOtherElement | src/preload/webviewPreload.js:262-272 | another element gives its background URL, else its first image's source, else "" |
| WebviewEngine.WebExtractTitle | src/preload/webviewPreload.js:274-275 | the title is the first non-empty of the listed attributes and the text |
| WebviewEngine.WebExtractDescription | src/preload/webviewPreload.js:277-278 | the description is the first non-empty of the text and the description attributes |
| WebviewEngine.WebExtractOther | src/preload/webviewPreload.js:297-298 | any other field is the trimmed text, else the `value` |
| WebviewEngine.WebPrice | src/preload/webviewPreload.js:280-295 | the price is the whole text or a piece of it |
| WebviewEngine.WebPriceOrder | src/preload/webviewPreload.js:284-295 | the patterns are tried in order currency-first, number-first, keyword, and the text is the fallback |
| WebviewEngine.WebPriceNotEmpty | src/preload/webviewPreload.js:290-295 | a non-empty text never gives an empty price |
| WebviewEngine.WebPriceOfElement | src/preload/webviewPreload.js:280-295 | an element whose text is not blank never gets an empty price; a blank element does price to "" |
| WebviewEngine.WebPriceMisencoded | src/preload/webviewPreload.js:284-288 | with the symbols as written in the source, "€5 x" matches no pattern and the whole text comes back |
| WebviewEngine.WebPriceFindsEuro | src/preload/webviewPreload.js:284-288 | with the intended symbols, "€5 x" gives the price "€5" |
| WebviewEngine.TagPath | src/preload/webviewPreload.js:318-324 | the tag path has at most four parts |
| WebviewEngine.TagPathShape | src/preload/webviewPreload.js:318-324 | each part is the lower-case tag of the matching ancestor, stopping at `body` |
| WebviewEngine.TagSelectorPath | src/preload/webviewPreload.js:318-324 | the loop builds exactly the tag path |
| WebviewEngine.WebGenerateSelector | src/preload/webviewPreload.js:302-327 | the selector is `#id`, else the tag path joined with " > "; classes never appear |
| WebviewEngine.BodyHasEmptySelector | src/preload/webviewPreload.js:320-326 | `body` without an id gets the empty selector |
| WebviewSession.WebInit | src/preload/webviewPreload.js:5-10 | the script starts idle, in manual mode, with nothing hovered, marked or stored |
| WebviewSession.InitInv | src/preload/webviewPreload.js:5-10 | on an unmarked page the start state satisfies the marking invariant |
| WebviewSession.AddListener | src/preload/webviewPreload.js:168-170 | adding a registered listener again has no effect |
| WebviewSession.RemoveListener | src/preload/webviewPreload.js:163-165 | removal drops exactly that registration |
| WebviewSession.SetupListenersResult | src/preload/webviewPreload.js:161-171 | setup leaves the other listeners and the three handlers once each |
| WebviewSession.SetupRegistersOnce | src/preload/webviewPreload.js:161-171 | each handler is registered exactly once after setup |
| WebviewSession.SetupListenersIdempotent | src/preload/webviewPreload.js:161-171 | running setup twice is the same as once |
| WebviewSession.RemoveScriptListeners | src/preload/webviewPreload.js:162-165 | the three removals leave exactly the other listeners |
| WebviewSession.UnmarkAll | src/preload/webviewPreload.js:403-405 | unmarking removes the marks from exactly the listed elements |
| WebviewSession.WebStart | src/preload/webviewPreload.js:329-336 | starting selects the field and marks `body` only |
| WebviewSession.WebStop | src/preload/webviewPreload.js:338-351 | stopping goes idle, unmarks `body` and removes the hover mark from the tracked element |
| WebviewSession.StopClearsHover | src/preload/webviewPreload.js:344-348 | after stopping no element carries the hover mark |
| WebviewSession.WebSetMode | src/preload/webviewPreload.js:416-419 | switching mode changes the mode only |
| WebviewSession.WebFindSimilar | src/preload/webviewPreload.js:378-398 | only in template mode with a bound field is one notice record sent; nothing else changes |
| WebviewSession.WebMouseOver | src/preload/webviewPreload.js:175-191 | while selecting, the hover mark moves from the previously hovered element to the new one, and no other element changes its hover mark |
| WebviewSession.WebMouseOut | src/preload/webviewPreload.js:193-202 | while selecting, leaving an element removes its hover mark and forgets it if it was tracked |
| WebviewSession.HoverHandlersKeepInv | src/preload/webviewPreload.js:173-202 | the hover handlers keep the invariant that at most the tracked element carries the hover mark |
| WebviewSession.WebRecord | src/preload/webviewPreload.js:224-244 | template mode binds the field and reports it; manual mode stores and sends one record |
| WebviewSession.WebMark | src/preload/webviewPreload.js:247-249 | the clicked element loses the hover mark, gains the selected mark and is tracked |
| WebviewSession.WebCommit | src/preload/webviewPreload.js:218-253 | a click records the value, marks the element and stops selecting |
| WebviewSession.CommitKeepsInv | src/preload/webviewPreload.js:218-253 | committing keeps the marking invariant |
| WebviewSession.WebClick | src/preload/webviewPreload.js:204-216 | a click outside selection is ignored; a click while selecting is prevented and commits the element's value and selector |
| WebviewSession.ClickIsSingleShot | src/preload/webviewPreload.js:204-216 | after a commit the hover handlers do nothing until selection restarts |
| WebviewSession.WebClear | src/preload/webviewPreload.js:400-414 | clearing removes marks from tracked and hovered elements and empties the records and template |
| WebviewSession.ClearRemovesAllMarks | src/preload/webviewPreload.js:400-414 | under the invariant, no element carries any mark after clearing |
| WebviewSession.StartStopKeepInv | src/preload/webviewPreload.js:329-351 | starting and stopping keep the marking invariant |
| Renderer.IsEmpty | src/renderer/renderer.js:32 | a value is empty when falsy or blank; a truthy non-string throws |
| Renderer.IsEmptyIsTrimTest | src/renderer/renderer.js:32 | a non-empty string is empty exactly when it trims to "" |
| Renderer.IsItemEmpty | src/renderer/renderer.js:41-44 | a record is empty exactly when its four content fields are all blank; otherwise the first non-blank field in the order title, description, image, price decides: a string makes the record non-empty, any other value makes the test throw the `trim` type error |
| Renderer.ItemEmptyIgnoresOtherKeys | src/renderer/renderer.js:41-44 | keys other than the four content fields do not affect emptiness |
| Renderer.NormalizeUrl | src/renderer/renderer.js:33-40 | an empty URL gives ""; a trimmed URL that already starts with `http://` or `https://` is kept; any other gets `https://` in front |
| Renderer.NormalizeUrlIdempotent | src/renderer/renderer.js:33-40 | normalising twice is the same as once |
| Renderer.Truncate | src/renderer/renderer.js:61-64 | a long text becomes a prefix of it followed by "..."; a short one, the empty one and a missing one are unchanged |
| Renderer.TruncateIdempotent | src/renderer/renderer.js:61-64 | truncating twice with the same limit is the same as once |
| Renderer.FindById | src/renderer/renderer.js:102 | the index found is the first record with that id, and none only when no record has it |
| Renderer.AddItem | src/renderer/renderer.js:100 | the record is appended and the others stay in order |
| Renderer.UpdateItem | src/renderer/renderer.js:101-108 | only the found record changes: the updates overwrite its keys and the rest stay |
| Renderer.UpdateItemIdempotent | src/renderer/renderer.js:101-108 | applying the same update twice is the same as once |
| Renderer.RemoveItem | src/renderer/renderer.js:109-111 | exactly the records with that id are removed, every other one keeps its multiplicity, and the survivors are the in-order subsequence of the records whose id differs |
| Renderer.RemoveAfterAdd | src/renderer/renderer.js:100-111 | removing the id of a record just added undoes the addition's effect |
| Renderer.RemoveItemIdempotent | src/renderer/renderer.js:109-111 | removing twice is the same as once |
| Renderer.FillingCounts | src/renderer/renderer.js:638-641 | the status counts succeed exactly when every record can be tested for emptiness, and then each count is the length of its filter's result: the empty records, the records with the current id, and the non-empty records with another id; a failure is the `trim` type error |
| Renderer.CountsPartition | src/renderer/renderer.js:638-641 | empty and completed records together are at most all records, and they are all records exactly when every record with the current id is empty; the being-filled count is at most the number of records |
| Renderer.FieldOf | src/renderer/renderer.js:1183 | the field is the first key other than `url` and `timestamp`, and none only when there is no such key |
| Renderer.FindEmpty | src/renderer/renderer.js:1142 | finds the first empty record, or none when every record has content; it fails with the error of the first record whose test throws |
| Renderer.FindEmptyStopsFirst | src/renderer/renderer.js:1142 | the search stops at the first empty record, reports none when every test passes with content, and fails at the first record whose test throws |
| Renderer.Decide | src/renderer/renderer.js:1137-1191 | no field, or a field whose key is the empty string, means ignore; template mode saves records; manual mode fills the current record, else adopts the first empty one, else creates one, and fails only when a record's test throws first |
| Renderer.EmptyKeyIgnored | src/renderer/renderer.js:1183-1185 | a message whose first key is the empty string is ignored, whatever follows, because the empty key is falsy |
| Renderer.Filled | src/renderer/renderer.js:1152-1157 | the updated record holds the new field value, the new URL if one was given, the new time, and every other key of the target |
| Renderer.ApplyFill | src/renderer/renderer.js:1145-1160 | the record list keeps its length, and the current id changes only when an empty record is adopted |
| Renderer.FillLandsInTarget | src/renderer/renderer.js:1152-1160 | the field lands in the target record and no other record changes |
| Renderer.InjectedPriceAt | src/renderer/renderer.js:385 | the price pattern matches at a position exactly when a digit or comma starts there, optionally after one currency symbol |
| Renderer.InjectedPriceMatch | src/renderer/renderer.js:385 | the match is the leftmost one |
| Renderer.PriceMatchIffNumChar | src/renderer/renderer.js:385-386 | the price pattern matches somewhere exactly when the text holds a digit or comma |
| Renderer.InjectedPriceFound | src/renderer/renderer.js:385 | a found price is a non-empty piece of the text made of price characters |
| Renderer.InjectedPrice | src/renderer/renderer.js:383-386 | the price is the match when there is one, else the trimmed text |
| Renderer.LoneCommaIsPrice | src/renderer/renderer.js:385-386 | a lone comma in "a , b" is taken as the price "," |
| Renderer.InjectedImageChain | src/renderer/renderer.js:378 | an image reads the first non-empty of `src` and `data-src` |
| Renderer.InjectedValue | src/renderer/renderer.js:376-389 | the click script's value: an image reads its own source chain, another element that of its first descendant image; a price is the match or the trimmed text; any other field the trimmed text |
| Renderer.ClickPayload | src/renderer/renderer.js:393-397 | the click message holds the trimmed value under the field, the URL and the time, with distinct keys and the field first |
| Renderer.ClickPayloadField | src/renderer/renderer.js:393-397 | the host recovers exactly the clicked field and its trimmed value from the message |
| DataStore.MaxId | src/main/services/data.js:38 | the maximum id is at least every id and is one of them |
| DataStore.NextId | src/main/services/data.js:37-39 | the next id exceeds every stored id; it is 1 for an empty store |
| DataStore.Save | src/main/services/data.js:32-55 | a saved record gets the next id, copies the five fields, is unverified and is appended |
| DataStore.SaveKeepsIdsUnique | src/main/services/data.js:37-53 | saving keeps ids unique |
| DataStore.SaveAfterClear | src/main/services/data.js:101-105 | after clearing, the first saved record gets id 1 |
| DataStore.FindIndex | src/main/services/data.js:61 | finds the first record with that id, or none |
| DataStore.Overwrite | src/main/services/data.js:71-79 | an update replaces the four content fields and `verified`, keeps id, URL and creation time, and stamps the time |
| DataStore.Update | src/main/services/data.js:60-82 | an unknown id fails with "not found"; otherwise only that record is overwritten and the id is merged into the reply |
| DataStore.UpdateIdempotent | src/main/services/data.js:60-82 | repeating an update changes nothing more |
| DataStore.UpdateKeepsIds | src/main/services/data.js:71-79 | updating keeps every id and their uniqueness |
| DataStore.Delete | src/main/services/data.js:87-96 | an unknown id fails with "not found"; otherwise exactly that record is cut out |
| DataStore.DeleteRemovesExactly | src/main/services/data.js:87-96 | with unique ids, deletion removes the one record with that id and keeps every other |
| DataStore.DeleteUndoesSave | src/main/services/data.js:87-96 | deleting the record just saved gives back the store before the save |
| DataStore.Insert | src/main/services/data.js:26 | insertion adds exactly one record |
| DataStore.InsertKeepsOrder | src/main/services/data.js:26 | insertion keeps the list newest first |
| DataStore.InsertStable | src/main/services/data.js:26 | insertion puts the new record after every record created at the same time, and keeps the order of those |
| DataStore.GetAll | src/main/services/data.js:25-27 | the listing is a newest-first permutation of the store, and records created at the same time keep their stored order (the sort is stable) |
| DataStore.ListAfterClear | src/main/services/data.js:101-105 | after clearing, the listing is empty |
| CsvExport.DoubleQuotes | src/main/services/export.js:27 | doubling quotes never shortens, and leaves quote-free text alone |
| CsvExport.UndoubleDouble | src/main/services/export.js:27 | un-doubling the quotes gives the original text back |
| CsvExport.Quoted | src/main/services/export.js:27-31 | a cell is wrapped in quotes; a truthy value that is not a string makes `replace` throw |
| CsvExport.QuotedRoundTrip | src/main/services/export.js:27-31 | the inside of a quoted cell reads back as the value's text |
| CsvExport.Joined | src/main/services/export.js:35 | `join` renders null and undefined as "" and strings as themselves |
| CsvExport.QuotedCells | src/main/services/export.js:27-31 | a row fails exactly when one of its quoted fields fails |
| CsvExport.Cells | src/main/services/export.js:25-34 | a row has eight cells in header order: id, five quoted fields, Yes/No, creation time |
| CsvExport.CellsReadBack | src/main/services/export.js:27-31 | every quoted cell of a row reads back as the record's text |
| CsvExport.RowLines | src/main/services/export.js:24-36 | one line per record, in order, failing exactly when some record fails |
| CsvExport.ToCsv | src/main/services/export.js:20-39 | the CSV is the header line followed by the record lines joined by newlines |
| CsvExport.HeaderHasNoBreak | src/main/services/export.js:21-22 | the header line has no newline |
| CsvExport.ToCsvLines | src/main/services/export.js:20-39 | when no value holds a newline, splitting the CSV on newlines gives the header plus one line per record |
| CsvExport.ExportContent | src/main/services/export.js:58-60 | CSV is written exactly when the format is "csv" or the path ends in ".csv"; JSON otherwise |
| Security.EscapeChar | src/main/utils/security.js:17-24 | special characters become entities, others stay |
| Security.Escape | src/main/utils/security.js:26 | the escaped text has none of `<>"'/` |
| Security.UnescapeEscape | src/main/utils/security.js:17-26 | escaping is reversible |
| Security.SanitizeHtml | src/main/utils/security.js:13-27 | falsy input gives ""; the output has no markup characters; harmless text is unchanged |
| Security.SanitizeHtmlReversible | src/main/utils/security.js:13-27 | the sanitised text decodes back to the input's string form |
| Security.SanitizeUrl | src/main/utils/security.js:34-49 | the URL is kept unless empty or starting with a dangerous scheme after lower-casing and trimming, when "" comes back |
| Security.SanitizeUrlIdempotent | src/main/utils/security.js:34-49 | sanitising twice is the same as once, and the result never starts with a dangerous scheme |
| Security.RemoveDotDot | src/main/utils/security.js:61 | removing ".." never lengthens |
| Security.RemoveDotDotLeavesNone | src/main/utils/security.js:61 | the global replacement leaves no ".." behind |
| Security.RemoveDotDotKeeps | src/main/utils/security.js:61 | text without ".." is unchanged |
| Security.RemovePathForbidden | src/main/utils/security.js:62 | the result has none of `<>:"\|?*`, uses only input characters, and clean text is unchanged |
| Security.RemovePathForbiddenInOrder | src/main/utils/security.js:62 | the deletion keeps exactly the characters other than `<>:"\|?*`, in their order: its result is the in-order subsequence at those positions |
| Security.StripLeadingSlashes | src/main/utils/security.js:63 | exactly the leading slashes and backslashes are removed |
| Security.SanitizeFilePath | src/main/utils/security.js:56-70 | a missing or empty path gives the empty string; otherwise the result is the three deletions in the source's order (".." first, then `<>:"\|?*`, then the leading slashes), so it has no forbidden characters, no leading slash, and is no longer than the input |
| Security.SanitizeFilePathExamples | __tests__/utils/security.test.js:50-56 | "../../../etc/passwd" comes out as "etc/passwd" and `file<>:"\|?*.txt` as "file.txt" |
| Security.SanitizeFilePathKeepsClean | src/main/utils/security.js:56-70 | a clean path is returned unchanged |
| Security.SanitizeFilePathLeavesTraversal | src/main/utils/security.js:60-63 | as written, ".<./" + tail comes out as "../" + tail: a traversal survives |
| Security.SanitizeFilePathFixed | src/main/utils/security.js:56-70 | with the character filter applied first, the result has no forbidden characters, no "..", and no leading slash |
| Security.SanitizeFilePathFixedIdempotent | src/main/utils/security.js:56-70 | the corrected sanitiser is idempotent on non-empty results |
| Security.SanitizeFilePathFixedAgrees | src/main/utils/security.js:60-63 | the corrected sanitiser agrees with the original on paths without forbidden characters |
| Security.SanitizeFilePathFixedBlocksTraversal | src/main/utils/security.js:60-63 | the corrected sanitiser removes the traversal from ".<./" + tail |
| Security.IsValidEmail | src/main/utils/security.js:77-81 | an email is valid exactly when it has the `local@domain.tld` shape without spaces or extra `@` |
| Security.Utf16Length | src/main/utils/security.js:158 | the UTF-16 length lies between the number of code points and twice that, and equals it for BMP text |
| Security.ValidatePasswordStrength | src/main/utils/security.js:153-175 | strong exactly when at least eight UTF-16 units with lower, upper and digit; otherwise the first failing rule's message |
| Security.NoUpperNeverStrong | src/main/utils/security.js:166-168 | a password of lower-case letters and digits is never strong |
| Security.KeyLower | src/main/utils/security.js:189 | lower-casing a key keeps its length |
| Security.SanitizeForLogging | src/main/utils/security.js:182-197 | keys stay in order; sensitive ones are redacted, every other value is sanitised in turn, plain values stay, and arrays become index-keyed objects |
| Security.SanitizedIsClean | src/main/utils/security.js:182-197 | the result holds no sensitive value at any depth |
| Security.CleanIsFixed | src/main/utils/security.js:182-197 | an already clean object is returned unchanged |
| Security.SanitizeForLoggingIdempotent | src/main/utils/security.js:182-197 | sanitising twice is the same as once |
| RateLimiter.Create | src/main/utils/security.js:105-106 | defaults are 100 requests per 60000 ms, with no history |
| RateLimiter.Recent | src/main/utils/security.js:113 | keeps exactly the times inside the window |
| RateLimiter.Check | src/main/utils/security.js:108-123 | a call is allowed exactly when fewer than the maximum recent calls exist; an allowed call records the time, and other callers are untouched |
| RateLimiter.RecentOfRecent | src/main/utils/security.js:113 | filtering at a later time after an earlier one is the same as filtering at the later time |
| RateLimiter.RecentShrinks | src/main/utils/security.js:113 | the recent count never grows as time passes |
| RateLimiter.WithinIsRecent | src/main/utils/security.js:113 | for past times, the window view equals the filter |
| RateLimiter.Run | src/main/utils/security.js:105-124 | a run of calls answers each call and keeps the settings |
| RateLimiter.RunPrefix | src/main/utils/security.js:108-123 | the answers to a prefix of calls are a prefix of the answers |
| RateLimiter.RunTracks | src/main/utils/security.js:110-121 | the stored history equals the allowed calls inside the window |
| RateLimiter.RunAnswers | src/main/utils/security.js:110-118 | each answer depends only on the earlier allowed calls of the same caller |
| RateLimiter.RunAnswerIsCheck | src/main/utils/security.js:108-123 | each answer is the limiter's check on the state built by the earlier calls |
| RateLimiter.LatestWindowBound | src/main/utils/security.js:115-120 | an allowed call keeps the window at or below the maximum |
| RateLimiter.RunWindowBound | src/main/utils/security.js:105-124 | at any moment, a caller has at most the maximum allowed calls inside one window |

## Left out

- Electron plumbing is not modelled: IPC transport, `contextBridge`, `sendToHost` and its `postMessage` fallback, and `webviewPreload.js`'s message dispatch (lines 42-85). Each message calls an operation that is modelled.
- Style injection, inline colours and `console` / logger output are left out; outlines are kept as a flag per element.
- The selection overlay is left out although it changes the page: `showSelectionOverlay` (src/preload/browserPreload.js:320-333, src/preload/webviewPreload.js:353-369) appends a DIV to `body`. The DIV stays for about two seconds in the browser script and until selection stops in the webview. While it is there it adds one to the `:nth-of-type` count of DIV children of `body` and adds its text to `body`'s `textContent`. The model's page never holds the overlay.
- `setTimeout` delays are left out; the delayed `stopSelection` is applied at once.
- `browserPreload.js`'s `setupExtractionListeners` and the `DOMContentLoaded` start-up are not modelled separately. Its handlers run only through `BrowserSession.HandleEvent`; the webview's listener setup is modelled.
- BrowserSession.FindSimilar: one clock reading, `env.now`, stamps every record of a batch (through BrowserSession.Draft and BrowserSession.ScanAll). The source calls `new Date().toISOString()` once per container (src/preload/browserPreload.js:373), so records of one batch can carry different timestamps. The duplicate test ignores timestamps, so which containers are kept does not depend on this.
- BrowserSession.ScanAll: stamps every record it keeps with the same `env.now`, as the line above says; the source reads the clock once per container.
- WebviewEngine.WebExtractValue: the price is found with the intended currency symbols (`Currencies`), not with the mis-encoded character class the source holds (src/preload/webviewPreload.js:285-287, modelled as `WebCurrencies`). So the text "€5 x" prices to "€5" in the model and to "€5 x" in the source, and "Total ¬5 today" prices to the whole text in the model and to "¬5" in the source. The as-written behaviour is stated by WebviewEngine.WebPriceMisencoded; see "## Findings".
- WebviewSession.WebClick: it commits WebviewEngine.WebExtractValue's value, so a clicked price is the one the intended symbols give, as the line above says.
- BrowserSession.FindSimilar: when the container selector does not parse, for example a card class such as `md:card`, `document.querySelectorAll` (src/preload/browserPreload.js:360) throws a `SyntaxError` that nothing catches. The model treats the call as doing nothing, because an uncaught exception in a page script is outside this model of the session state.
- The renderer's `findSimilar` (lines 1061-1080) only shows a notice in the UI and is left out.
- The rest of the renderer is left out: authentication, navigation, notifications, DOM rendering and `addNewItem`'s UI updates. The creation step is `Renderer.Decide`'s `CreateItem` decision.
- `handleTemplateExtraction` saves records with `Promise.all`. The model does not fix an order among those saves, and an array payload is not modelled beyond a single record.
- Time is a parameter: ISO timestamps are strings and `created_at` is an integer.
- Random tokens, hashing, URL parsing and file writing are left out: `generateToken`, `hashData`, `isValidUrl`, `toJSON`, `writeToFile`. They call platform code this model cannot see.
- `element.src` is read as the attribute, without resolution against the page URL.
- Dom.LowerTag and Text.Lower: case mapping is ASCII only. Security.KeyLower also maps the Kelvin sign, which JavaScript lower-cases to `k`; other non-ASCII case mappings are not modelled.
- Values that JavaScript types loosely are modelled as `Option<string>` or a small value datatype. A record (`Item`) is a map from keys to values, so its key order is not modelled. The JSON values handled by the logging sanitiser and the click message are lists of entries and keep their insertion order.
- Css.QuerySelectorAll and Css.QuerySelector: only the selector subset the scripts generate is parsed: type, `#id`, `.class`, `[attr="v"]`, `:nth-of-type(k)`, and descendant and child combinators. Any other selector is treated like one that raises a syntax error.
- RateLimiter.RunTracks, RateLimiter.RunAnswers and RateLimiter.RunWindowBound assume non-decreasing clock readings. `Date.now()` can step backwards, and that case is not covered.
- Renderer.Truncate counts code points where JavaScript counts UTF-16 units. The two agree on text in the Basic Multilingual Plane.
- Security.RemoveDotDot states only that the result is no longer than the input. What is removed is stated by Security.RemoveDotDotLeavesNone and Security.RemoveDotDotKeeps.
- Dom.Tokens states only that each token is non-empty and space-free. The round trip is Dom.TokensOfJoin.
- DataStore.Save takes one `now` for both `created_at` and `updated_at`. The source reads the clock twice (src/main/services/data.js:49-50), so the two can differ by a tick.
- The `i` flag of the price and keyword patterns folds case for ASCII letters only in the model. JavaScript also folds non-ASCII letters, which is not modelled.
- The stealth, database, updater and other main-process services are not part of this model.

## Findings

| source | as written | input that shows it | evidently intended | confidence | as-written member | corrected member |
|---|---|---|---|---|---|---|
| src/main/utils/security.js:60-63 | ".." is removed before the characters `<>:"\|?*`, so removing a character can join two dots into a new ".." | ".<./etc/passwd" becomes "../etc/passwd" | no ".." in the sanitised path | not executed | Security.SanitizeFilePathLeavesTraversal | Security.SanitizeFilePathFixedBlocksTraversal |
| src/preload/webviewPreload.js:285-287 | the currency symbols are stored mis-encoded: UTF-8 bytes read as Windows-1252, e.g. "â‚¬" for "€". The character class therefore holds the pieces of those sequences, not the symbols | the text "€5 x" matches no pattern, so the price is the whole text "€5 x" | the price "€5" | not executed | WebviewEngine.WebPriceMisencoded | WebviewEngine.WebPriceFindsEuro |
