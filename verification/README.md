# daftie: a verified model of the listing overlay

daftie is a browser extension for the property search pages of daft.ie. On a
results page its content script does the following:

- It finds the listing cards: their id, address, link, price, and the bed,
  bath, size and type spans.
- It keeps a per-property record under the storage key `property:<id>`. The
  record holds a manual "hidden" flag and a note.
- It hides every card that is hidden by hand or whose address contains a term
  of the global hide list, and counts the hidden cards.
- It attaches one control wrapper to each card: hide/unhide, notes, details,
  photos, and "Hide all <area>" for the area taken from the address.
- It loads a listing's page data on demand, for the details panel and for the
  photo carousel.
- It re-runs the attachment when the results container gains or loses nodes.

The popup does three things:

- It shows and edits the global controls: the hiding toggle, and the hide list
  as a comma-separated text.
- It stores those controls.
- It sends them to the content script of the active tab.

A small analytics client serialises hits and its own parameters as URL query
strings.

The model is written in Dafny. The order of the modules follows the code:

| module | file | what it models |
|---|---|---|
| `Wrappers` | wrappers.dfy | `Option` and `Result` |
| `JsStrings` | js_strings.dfy | the JavaScript string built-ins the code calls (`trim`, `toLowerCase`, `indexOf`, `includes`, `split`, `join`, `parseInt`, numerals) |
| `UriComponent` | uri_component.dfy | `encodeURIComponent`, with its inverse `decodeURIComponent` as the partner for the round trip |
| `Protocol` | protocol.dfy | the metadata record, the global controls, the storage area, and the popup ↔ content script messages |
| `Overlay` | overlay.dfy | `extractPlaceName`, `capitalize`, and the wrapper `addCardControls` builds |
| `Cards` | cards.dfy | `findCards` (a loop over the page, with the inner loop over the metadata spans), `getTransactionType`, `getStorageKey` |
| `MetadataStore` | metadata_store.dfy | get-or-insert, toggling, adding an area, the `writeStorage` filter (a loop) and the read-back |
| `Observer` | observer.dfy | the relevance test of the mutation observer |
| `Reconciliation` | reconciliation.dfy | what `hideCards` and `initCards` make of a page, as functions |
| `ContentScript` | session.dfy | class `Session`: the script's module-level state, with every operation that updates it as a method, each proved against the functions above |
| `Carousel` | carousel.dfy | the photo carousel: the index steps, and class `Carousel` with its handlers |
| `Details` | details.dfy | the `nextData` cache, the details panel, and the photos handed to the carousel (class `CardView`) |
| `Popup` | popup.dfy | hide-list parsing and rendering, the toggle label, and class `PopupState` with the popup's handlers |
| `Analytics` | analytics.dfy | `Serializable.toQueryString` (a loop), the hit constructors, parameters and custom dimensions (classes `Serializable`, `Hit`, `Client`) |

How the browser is represented:

- The page is a sequence of the elements that carry a `data-testid`. A card
  refers to its root element by index. An element records whether it carries
  `df-hidden`, and the list of control wrappers appended to it.
- `chrome.storage.local` is a map from key to record.
- A message is a value handed to the handler.
- The popup's outgoing messages are appended to an outbox, each with the id of
  the tab it goes to.
- Fetching a listing page is a parameter: either the error message, or the
  parsed `__NEXT_DATA__` object, which may be absent.

Where the code and the project's own design description differ, the model follows the code:

- **Storage layout.** All records are written together under the key
  `properties`, not one storage key per card. `property:<id>` is only the key
  inside that map.
- **Observer.** The observer callback runs `initCards` only. It does not re-run
  `hideCards`, so a card that appears later is not hidden until the next
  `hideCards`.
- **`readStorage`.** It ignores its `cards` argument. It replaces the whole
  record map, and takes the stored controls or the defaults.
- **Empty hide-list term.** A term that is the empty string matches every
  non-empty address, because `includes("")` is true. `updateHideList` never
  stores such a term, but a `settingsUpdated` message may carry one.
- **Popup `loadSettings`.** It does not read storage. It only asks the active
  tab for its hidden count. The popup therefore starts from
  `hiddenEnabled = true` and an empty hide list whatever is stored, and a later
  `toggleHidden` or `updateHideList` stores that.
- **Tab id 0.** A tab whose id is 0 counts as no tab (`tab?.id` is falsy), so
  no message is sent to it.

## Model

| member | source | states |
|---|---|---|
| JsStrings.Trim | contentScript.js:87 | `trim()`: the result is the middle of the input with only white space cut off, and neither of its ends is white space |
| JsStrings.ToLowerCase | contentScript.js:87 | `toLowerCase()` keeps the length and lower-cases each character in place |
| JsStrings.IndexOf | contentScript.js:821 | `indexOf` is the first position where the substring occurs, or -1 exactly when it occurs nowhere |
| JsStrings.Split | popup.js:110-111 | `split(",")` gives at least one piece, no piece holds the separator, and joining the pieces with it gives back the input |
| JsStrings.SplitConcat | popup.js:110-111 | splitting `a + sep + b` is splitting `a` followed by splitting `b` |
| JsStrings.ParseNumeral | contentScript.js:464 | `parseInt` reads back the numeral written for any index |
| JsStrings.NumeralInjective | popup.js:23-25 | distinct counts have distinct numerals |
| UriComponent.Encode | analytics.js:25 | `encodeURIComponent` writes only unreserved characters and `%`, so never `&` or `=` |
| UriComponent.EncodeUnreserved | analytics.js:25 | a string of unreserved characters is its own encoding |
| UriComponent.DecodeEncode | analytics.js:25 | decoding the encoding of any string gives back the string (UTF-8 octets, percent-encoded) |
| Protocol.FieldCount | contentScript.js:760 | `Object.keys(value).length` is at most 2, and 0 exactly when the record has neither field |
| Cards.TransactionType | contentScript.js:31-33 | `"sale"` exactly when the URL contains `for-sale`, otherwise `"rent"` |
| Cards.CardId | contentScript.js:48 | the id has no hyphen, and the test id is `result-<id>` or starts with `result-<id>-` |
| Cards.CardAddress | contentScript.js:87 | the address is lower-case and trimmed |
| Cards.LastOfKind | contentScript.js:70-82 | the field of each kind comes from the last span of that kind (`Bed` first, then `Bath`, then `mÂ²`, else the type), and `None` means no span of that kind |
| Cards.LaterSpanWins | contentScript.js:70-82 | one more span overwrites exactly the field of its kind (with `parseInt(text) \|\| 0` for counts), and leaves the others |
| Cards.ParseSpans | contentScript.js:65-83 | the span loop, starting from beds/baths/size 0 and type `""`, ends with the span metadata of all spans |
| Cards.CardsOf | contentScript.js:39-47 | one card per result element, in document order, each naming a result element of the page |
| Cards.CardsOfExtract | contentScript.js:47-97 | every card is the record built from the element it names |
| Cards.CardsOfCover | contentScript.js:41-43 | every element matched by `[data-testid^="result-"]` gives a card |
| Cards.CardsIgnoreDecoration | contentScript.js:39-97 | changing the hidden class or the wrappers of elements changes no card |
| Cards.FindCards | contentScript.js:39-98 | the `findCards` loop returns exactly the cards of the page |
| Cards.StorageKeyInjective | contentScript.js:707-710 | two cards share a key exactly when they share an id |
| MetadataStore.EnsureMetadata | contentScript.js:691-701 | get-or-insert: an existing record is kept, a missing key gets `{hidden: false, notes: ""}`, and no other key is touched |
| MetadataStore.WithDefaults | contentScript.js:691-701 | get-or-insert over a set of keys adds exactly those keys |
| MetadataStore.WithDefaultsKeepsLookups | contentScript.js:691-701 | inserting defaults never changes what `getMetadata` returns |
| MetadataStore.EnsureAfterDefaults | contentScript.js:691-701 | one more get-or-insert after a batch is a batch with one more key |
| MetadataStore.WithDefaultsTwice | contentScript.js:691-701 | two batches of get-or-insert are one batch over both key sets |
| MetadataStore.Toggled | contentScript.js:254-255 | `hidden = !hidden` flips the manual flag and keeps the note |
| MetadataStore.ToggleTwice | contentScript.js:254-255 | toggling twice restores a record that has a hidden flag |
| MetadataStore.AddArea | contentScript.js:239-246 | the lower-cased name is appended only when absent; the old list is a prefix; the list gains no duplicate |
| MetadataStore.AddAreaIdempotent | contentScript.js:239-246 | a second call with the same name in any case changes nothing |
| MetadataStore.NonEmptyRecords | contentScript.js:757-764 | the persisted map is exactly the records with at least one field, unchanged |
| MetadataStore.NonEmptyRecordsKeepsCreated | contentScript.js:691-701 | records created by `getMetadata` are never filtered out |
| MetadataStore.PersistRoundTrip | contentScript.js:723-777 | reading back what `writeStorage` wrote gives the filtered records and the controls; other storage keys keep their values |
| MetadataStore.FilterNonEmpty | contentScript.js:757-764 | the filter loop keeps a key exactly when its record has a field, with its value unchanged |
| Overlay.TrimAll | contentScript.js:820 | each segment is trimmed in place |
| Overlay.PlaceCandidates | contentScript.js:821 | the filter keeps only segments with no digit and no `co. ` |
| Overlay.PlaceCandidatesNone | contentScript.js:821-825 | the filter leaves nothing exactly when no segment names a place |
| Overlay.PlaceCandidatesLast | contentScript.js:821-825 | the last survivor of the filter is the last segment that names a place |
| Overlay.ExtractPlaceName | contentScript.js:816-826 | null exactly when no trimmed, lower-cased segment names a place; otherwise the last segment that does |
| Overlay.CapitalizeWords | contentScript.js:326 | each word gets its first letter upper-cased |
| Overlay.CapitalizeWordSpec | contentScript.js:326 | a word's first letter is upper-cased and the rest is kept |
| Overlay.CapitalizeWordsJoin | contentScript.js:323-327 | joining capitalised words with blanks capitalises the joined text |
| Overlay.CapitalizeSpec | contentScript.js:322-330 | `capitalize` upper-cases exactly the first character and every character after a blank, and keeps the length |
| Overlay.PlaceInAddress | contentScript.js:816-826 | the place name is lower-case and occurs in the lower-cased address it was taken from |
| Reconciliation.HideAllHidesCard | contentScript.js:116-184 | pressing the "Hide all <Area>" button a card's wrapper offers puts a term in the hide list that hides that very card |
| Overlay.Reattach | contentScript.js:105-114 | without `force` an existing wrapper is kept; otherwise the first wrapper is removed and the new one appended, so a card with at most one wrapper ends with exactly one |
| Reconciliation.AnyTermIn | contentScript.js:617-619 | true iff some term, lower-cased, occurs in the address |
| Reconciliation.ApplyVisibility | contentScript.js:604-630 | the page keeps its length after `hideCards`; contents: VisibilityMarksCards |
| Reconciliation.VisibilityMarksCards | contentScript.js:609-627 | each card's `df-hidden` flag equals the hide decision (hidden by hand, or non-empty address containing a term); other elements and the cards themselves are unchanged |
| Reconciliation.VisibilityIdempotent | contentScript.js:604-630 | running `hideCards` twice without a change of state is running it once |
| Reconciliation.VisibilityIgnoresDefaults | contentScript.js:610-613 | the records `getMetadata` inserts change no hide decision |
| Reconciliation.HiddenFlags | contentScript.js:609-627 | one hide decision per card; what they add up to: HiddenCountIsCardinality |
| Reconciliation.CountTrue | contentScript.js:623-625 | the counter never exceeds the number of cards |
| Reconciliation.CountTrueIsCardinality | contentScript.js:623-625 | the counter equals the number of positions whose decision is true |
| Reconciliation.HiddenCountStep | contentScript.js:623-625 | one more card adds one exactly when that card is hidden |
| Reconciliation.HiddenCountIsCardinality | contentScript.js:604-630 | the returned count equals the number of hidden cards |
| Reconciliation.HiddenCountIgnoresDefaults | contentScript.js:610-613 | inserted default records do not change the count |
| Reconciliation.AttachAll | contentScript.js:670-685 | the page keeps its length after `initCards`; contents: AttachAllControls |
| Reconciliation.AttachAllControls | contentScript.js:670-685 | after `initCards` every card has a wrapper; a card that had none shows the overlay built from its record, one that had one keeps it, and non-card elements are untouched |
| Reconciliation.AttachAllIdempotent | contentScript.js:105-114 | a second `initCards` adds no wrapper, whatever the records are by then |
| Reconciliation.UndecoratedAmongCards | contentScript.js:670-685 | `initCards` creates records only for keys of cards |
| Observer.HasRelevantChanges | contentScript.js:646-656 | true iff some record is a `childList` record that adds or removes nodes |
| ContentScript.Session.constructor | contentScript.js:8-15 | the initial state: no records, count 0, hiding enabled, empty hide list |
| ContentScript.Session.UpdateVisibilityState | contentScript.js:21-25 | the body carries `df-hidden-disabled` exactly when hiding is disabled; nothing else changes |
| ContentScript.Session.GetMetadata | contentScript.js:691-701 | returns the stored record or the default, and leaves it stored under the card's key |
| ContentScript.Session.HideCard | contentScript.js:609-627 | one card: the decision is the visibility rule on its record, the count grows by one iff hidden, only its element's class changes |
| ContentScript.Session.HideCards | contentScript.js:604-630 | the page becomes `ApplyVisibility`; records are created for every card; the returned count and `hiddenCardsCount` equal the number of hidden cards |
| ContentScript.Session.AttachControls | contentScript.js:105-200 | `addCardControls`: no-op without `force` when a wrapper exists; otherwise the card's record is ensured and its wrapper list becomes `Reattach` of the overlay built from it |
| ContentScript.Session.InitCards | contentScript.js:670-685 | the page becomes `AttachAll`; records are created only for cards that had no wrapper; a page without cards is untouched |
| ContentScript.Session.ToggleHideCard | contentScript.js:253-260 | the card's flag is flipped; every card is marked by the rule on the toggled records; the count follows; storage holds the records; the card's wrapper is rebuilt with `force` |
| ContentScript.Session.PersistAndRedraw | contentScript.js:256-259 | the tail of `toggleHideCard`: one storage write, the body class, and re-attachment with `force` |
| ContentScript.ToggledRecords | contentScript.js:254-255 | the toggled card's manual flag is the negation of its old one; other records are kept |
| ContentScript.ToggleState | contentScript.js:253-260 | `hideCards` on the toggled records followed by a forced re-attach gives the toggled state, and adds no record |
| ContentScript.BootstrapState | contentScript.js:831-842 | `initCards` then `hideCards` on freshly read records is stated on the read records alone: the inserted defaults change no mark and no count |
| ContentScript.Session.ToggleNotes | contentScript.js:267-270 | flips `shown` on the notes of the card's latest wrapper and nothing else |
| ContentScript.Session.SaveNotes | contentScript.js:592-598 | the card's record gets the note; storage is rewritten; reading it back gives the note |
| ContentScript.Session.AddToHideAreaList | contentScript.js:239-246 | a new lower-cased area is appended, written and applied by `hideCards`; a known area changes nothing at all |
| ContentScript.Session.WriteStorage | contentScript.js:755-777 | one write holding the non-empty records and the global controls |
| ContentScript.Session.ReadStorage | contentScript.js:723-749 | the records become the stored ones (or none), the controls the stored ones (or the defaults) |
| ContentScript.Session.HandleMessage | contentScript.js:848-862 | `getHiddenCount` answers the current count and changes nothing; `settingsUpdated` takes the settings, sets the body class and re-runs `hideCards` |
| ContentScript.Session.OnMutations | contentScript.js:646-656 | `initCards` runs exactly when some mutation is relevant; otherwise nothing changes |
| ContentScript.Session.Start | contentScript.js:807-842 | on a page without cards nothing changes; otherwise storage is read and the page is decorated |
| ContentScript.Session.Decorate | contentScript.js:833-837 | every card has controls built from the read records, is marked by the rule on them, and has a record; the count and body class follow the controls |
| Carousel.NextIndex | contentScript.js:442-445 | the next index stays below the number of photos |
| Carousel.PrevIndex | contentScript.js:451-454 | the previous index stays below the number of photos |
| Carousel.StepsAreModular | contentScript.js:442-454 | next is `(i + 1) mod n` and previous is `(i - 1) mod n`: both wrap at the ends |
| Carousel.StepsAreInverse | contentScript.js:442-454 | next then previous, and previous then next, return to the same photo |
| Carousel.OnlyAtOneVisible | contentScript.js:416-427 | as rendered, the visible class is on one slide and missing from the other n - 1 |
| Carousel.MoveVisible | contentScript.js:428-436 | the new slide is visible, the old one (if different) is not, and the others are unchanged |
| Carousel.MoveKeepsOneVisible | contentScript.js:428-436 | moving from the only visible slide leaves exactly the new slide visible |
| Carousel.AsWrittenAgreesWhenMoving | contentScript.js:428-436 | between two different photos the code as written does the intended thing |
| Carousel.SinglePhotoVanishes | contentScript.js:428-456 | with one photo, next and previous both move from 0 to 0, and the code as written hides the only photo |
| Carousel.Carousel.constructor | contentScript.js:363-416 | the dialog starts on photo 0, with only its slide and thumbnail visible |
| Carousel.Carousel.ChangeSlide | contentScript.js:428-436 | slides and thumbnails are moved alike, and the index becomes the new one |
| Carousel.Carousel.HandleNext | contentScript.js:442-445 | the index becomes the next one, and exactly its slide and thumbnail are visible (with the intended `changeSlide`, see Findings) |
| Carousel.Carousel.HandlePrev | contentScript.js:451-454 | the index becomes the previous one, and exactly its slide and thumbnail are visible (with the intended `changeSlide`, see Findings) |
| Carousel.Carousel.HandleThumbnailClick | contentScript.js:461-469 | a click on thumbnail k moves to k; a click beside the images, or on the current one, changes nothing |
| Carousel.Carousel.HandleKey | contentScript.js:478-486 | ArrowRight is next, ArrowLeft is previous, any other key changes nothing (with the intended `changeSlide`, see Findings) |
| Details.LookupSeriesSettles | contentScript.js:207-232 | over any series of `getPropertyNextData` calls on one card, once a call succeeds every later call answers the same data, whatever the page gives by then |
| Details.CachedSeries | contentScript.js:207-211 | a card with cached data answers it on every call and never uses a fetch |
| Details.FailureIsNotCached | contentScript.js:212-232 | after a failed call (fetch error, or no `__NEXT_DATA__` script, `Next.js data not found`) the next call fetches afresh |
| Details.BreakLines | contentScript.js:306-309 | no line break remains, and text without one is unchanged |
| Details.BreakLinesJoin | contentScript.js:306-309 | replacing every `\n` by `<br>` is splitting at line breaks and joining with `<br>` |
| Details.PanelContentOf | contentScript.js:286-316 | the description (lines broken) and features (default `[]`) iff the listing has a non-empty description; otherwise the error message, `Property description not found` when the data loaded |
| Details.PhotoUrls | contentScript.js:340-347 | the URL pairs are exactly those of the images with both sizes truthy; order and multiplicity: PhotoUrlsOne and PhotoUrlsAppend |
| Details.PhotoUrlsOne | contentScript.js:340-347 | one image gives its pair exactly when both sizes are truthy, and nothing otherwise |
| Details.PhotoUrlsAppend | contentScript.js:340-347 | the pairs of two runs of images are the first run's followed by the second's, so photo k is the k-th image with both sizes |
| Details.PhotosOf | contentScript.js:336-352 | photos are never empty; no photos is the error `No photos available`; a failed lookup passes its message on |
| Details.CardView.constructor | contentScript.js:47-97 | a card starts with no cached data and no panel |
| Details.CardView.GetPropertyNextData | contentScript.js:207-233 | the result is the lookup; the data is cached on success only, and a cache is never replaced |
| Details.CardView.ToggleDetails | contentScript.js:278-320 | the first call creates the panel from the lookup and shows it; later calls keep the content and flip `shown`, without fetching; the result is whether the panel is shown |
| Details.CardView.ShowPhotos | contentScript.js:336-416 | a fresh carousel over the listing's photos, on photo 0, or the error; the data is cached as by `getPropertyNextData` |
| Popup.ToggleLabel | popup.js:23-25 | the text starts with `S` (`Show N hidden`) exactly when hiding is enabled, otherwise `Hide N` |
| Popup.ToggleLabelInjective | popup.js:23-25 | the text determines both the toggle state and the count |
| Popup.NormalizeItemClean | popup.js:112 | a normalised piece is trimmed and lower-case, and has a comma only if the piece had one |
| Popup.NormalizeItems | popup.js:112-113 | the filter never yields more entries than pieces; contents: NormalizeItemsClean and NormalizeItemsAppend |
| Popup.NormalizeItemsClean | popup.js:111-113 | every entry is non-empty, trimmed, lower-case and comma-free |
| Popup.ParseHideListClean | popup.js:110-113 | every parsed entry is non-empty, trimmed, lower-case and comma-free |
| Popup.NormalizeItemsAppend | popup.js:112-113 | normalising works piece by piece |
| Popup.ParseHideListConcat | popup.js:110-113 | entries keep the order they were typed in: parsing `a,b` is parsing `a` then `b` |
| Popup.ParseIgnoresLeadingBlank | popup.js:112 | a leading blank does not change the parse |
| Popup.ParseOneItem | popup.js:110-113 | a single clean entry parses to itself |
| Popup.ParseEmpty | popup.js:110-113 | an empty field gives an empty hide list |
| Popup.RenderFirst | popup.js:28 | the rendering is the first entry, `", "`, and the rendering of the rest |
| Popup.ParseEntryThenList | popup.js:110-113 | a clean entry, a comma and a blank in front of text add the entry in front of the text's parse |
| Popup.ParseRenderRoundTrip | popup.js:28 | parsing the `join(", ")` rendering of clean entries gives back the entries |
| Popup.ParseHideListIdempotent | popup.js:110-113 | re-entering the displayed list changes nothing |
| Popup.PopupState.constructor | popup.js:8-12 | the initial state: hiding enabled, empty hide list, count 0, nothing sent |
| Popup.PopupState.UpdateUI | popup.js:18-29 | the toggle text is the label of the state, and the field holds the list joined by `", "` |
| Popup.PopupState.NotifyContentScript | popup.js:35-46 | one `settingsUpdated` message with the current settings goes to the active tab iff its id is truthy |
| Popup.PopupState.LoadSettings | popup.js:52-74 | asks a tab with a truthy id for its count; an answer sets the count and redraws; no answer changes nothing |
| Popup.PopupState.SaveSettings | popup.js:80-91 | storage holds the settings (`hiddenEnabled` and `hideList`, never the count) under `global-controls`; other keys are kept |
| Popup.PopupState.ToggleHidden | popup.js:97-102 | only `hiddenEnabled` flips; the list and count are kept; the settings are stored, redrawn and sent |
| Popup.PopupState.UpdateHideList | popup.js:109-117 | the field keeps the typed text; the list becomes its parse; the toggle and count are kept; the settings are stored and sent |
| Analytics.IndexOfKey | analytics.js:24 | the position of the property, or `None` exactly when the object has no such property |
| Analytics.QueryPairs | analytics.js:20-29 | never more pairs than properties; contents: ParseAllPairs and QueryPairsSnoc |
| Analytics.QueryPairsSnoc | analytics.js:23-27 | one more property adds its pair exactly when its value is truthy |
| Analytics.PairsNotEmpty | analytics.js:25 | every pair holds its `=` |
| Analytics.PairsWithoutAmpersand | analytics.js:25 | no pair holds `&` |
| Analytics.EmptyQueryString | analytics.js:20-29 | the query string is `""` exactly when no property is truthy (so also for `{}`) |
| Analytics.ParseOnePair | analytics.js:25 | a pair splits at its `=` and decodes back to the key and the string of the value |
| Analytics.ParseAllPairs | analytics.js:20-29 | the pairs decode back to the truthy properties, in order |
| Analytics.QueryStringRoundTrip | analytics.js:20-29 | parsing the query string gives back every truthy property, in key order, with its value as a string |
| Analytics.Serializable.constructor | analytics.js:4-6 | `props \|\| {}` |
| Analytics.Serializable.ToQueryString | analytics.js:20-29 | the loop returns the query string of the properties |
| Analytics.QueryPairsOfTwo | analytics.js:20-29 | the pairs of a two-property record, property by property |
| Analytics.QueryPairsOfFive | analytics.js:20-29 | the pairs of a five-property record, property by property |
| Analytics.QueryStringOfTwo | analytics.js:20-29 | the query string of a two-property record whose second value is truthy |
| Analytics.EventQuery | analytics.js:51-55 | an event omits each falsy category, action, label and value, and always ends with `t=event` |
| Analytics.PageHitQuery | analytics.js:39-43 | a page hit is `dp=<name>&t=pageview`, without `dp` when the name is falsy |
| Analytics.ScreenHitQuery | analytics.js:45-49 | a screen hit is `cd=<name>&t=screenview`, without `cd` when the name is falsy |
| Analytics.Hit.constructor | analytics.js:32-37 | a hit holds `props \|\| {}` and is not sent |
| Analytics.Hit.PageHit | analytics.js:39-43 | `{dp, t: "pageview"}`, not sent |
| Analytics.Hit.ScreenHit | analytics.js:45-49 | `{cd, t: "screenview"}`, not sent |
| Analytics.Hit.Event | analytics.js:51-55 | `{ec, ea, el, ev, t: "event"}`, not sent |
| Analytics.Hit.ToQueryString | analytics.js:20-29 | a hit serialises its properties as any serialisable does |
| Analytics.SetProperty | analytics.js:97-99 | an existing property keeps its place, a new one goes last, and no name changes |
| Analytics.IndexOfSameKeys | analytics.js:97-99 | where a property is found depends only on the names |
| Analytics.SetPropertyLookups | analytics.js:97-99 | the name now reads the value and every other name reads what it did |
| Analytics.SetDimension | analytics.js:101-103 | exactly one index is set; the array grows with holes when needed; other indices are unchanged |
| Analytics.ClearDimension | analytics.js:105-107 | exactly one index becomes a hole; the length and other indices are unchanged |
| Analytics.DimensionSlots | analytics.js:127-129 | one slot per index: `cd{i}={value}`, or empty for a hole; read back by DimensionSlotsRoundTrip |
| Analytics.DimensionSlotsRoundTrip | analytics.js:127-129 | splitting the dimension string at `&` gives back one slot per index |
| Analytics.Client.constructor | analytics.js:58-67 | the client copies the additional parameters and starts with no dimensions |
| Analytics.Client.AddParameter | analytics.js:97-99 | the parameters become `SetProperty` of the old ones |
| Analytics.Client.AddCustomDimension | analytics.js:101-103 | the dimensions become `SetDimension` of the old ones |
| Analytics.Client.RemoveCustomDimension | analytics.js:105-107 | the dimensions become `ClearDimension` of the old ones |
| Analytics.Client.SendFragments | analytics.js:126-131 | the parameter fragment is the query string of the parameters, and the dimension fragment is the dimension string |

## Left out

- `chrome.storage.local`, `chrome.runtime.onMessage` and `chrome.tabs` are modelled as a map, as values handed to a handler, and as an outbox. Their asynchrony, their error callbacks and the `console.error` paths of failed reads and writes are not modelled.
- Any interleaving of asynchronous steps is not modelled: concurrent toggles, writes racing each other, or a second `toggleDetails` click while the first is loading. Each operation runs to completion.
- `fetch`, `response.text()`, `DOMParser` and `JSON.parse` in `getPropertyNextData` are one input value: the thrown message, or the parsed `__NEXT_DATA__` object. A `__NEXT_DATA__` that parses to a falsy value is not modelled.
- Presentation is left out: the HTML of `innerHTML` templates (the feature list markup, image attributes, the transient "Loading" text), `<dialog>`/`showModal`, closing the dialog, and listener registration. The model keeps what the handlers read and write: classes, texts, indices.
- `showMap` is left out: its bounding-box arithmetic is floating point and it opens a window.
- `formatPropertyDetails` is never called; `toggleDetails` builds the same content inline, and that is what is modelled.
- `addChangeListener`'s registration of the observer and its warning for a missing results container are left out; only the callback is modelled.
- `analytics.js` `send`: the URL, the `fetch`, the `z` cache buster, the client id and its storage, `genClientID` (clock and randomness), the `options` and `waitOnPromise`, and `toString`/`toJSON` (JSON). Only the two query fragments `send` builds from the client's state are modelled.
- mapOnly.js is not part of this model: it prunes the map page for display with `click()` and layout queries.
- JavaScript values are modelled without objects, arrays, fractional numbers and `NaN`. `for…in` enumeration order is taken as the order of the property list; the engine's rule that integer-like keys come first is not modelled.
- `toLowerCase`/`toUpperCase` are modelled on ASCII letters only; the full Unicode case mapping is not.
- Strings are sequences of Unicode scalar values, so `encodeURIComponent`'s `URIError` on a lone surrogate cannot arise.
- The popup's initial text in `#toggleHiddenText` and `#hideList` comes from its HTML, which is not part of this model; it is a constructor parameter.
- Carousel.Carousel.HandleThumbnailClick: requires the clicked `data-imgid`, when present, to be the numeral of a thumbnail index. That is what the template writes; any other value cannot reach the handler.
- ContentScript.Session.ToggleNotes: requires the card to have a wrapper. The notes button exists only inside one.
- ContentScript.Session.ReadStorage: the stored controls record is taken whole; `Object.assign` onto the controls of a stored record with a missing field is not modelled.
- Carousel.Carousel.ChangeSlide: models the intended `changeSlide`, not the code as written; see Findings.
- Carousel.Carousel.HandleNext: with one photo the code as written leaves no slide or thumbnail visible after the step; the model keeps photo 0 visible, as the corrected `changeSlide` does (see Findings).
- Carousel.Carousel.HandlePrev: with one photo the code as written leaves no slide or thumbnail visible after the step; the model keeps photo 0 visible, as the corrected `changeSlide` does (see Findings).
- Carousel.Carousel.HandleKey: ArrowRight and ArrowLeft inherit the one-photo gap of HandleNext and HandlePrev; with one photo the code as written hides the only slide and thumbnail.
- Details.CardView.ToggleDetails: the details panel is kept on the card's view, apart from the page's wrappers. In the code the panel is appended to the controls wrapper (contentScript.js:279-284). A forced re-attach removes that wrapper and resets `notesNode` and `controlsNode` (contentScript.js:107-110, 197-199), but not `extraDetailsNode`. Later "Show Details" clicks therefore flip a panel that is no longer on the page, while the button label still changes. The model does not capture that detached panel.
- ContentScript.Session.AttachControls: a forced re-attach replaces the wrapper, and with it any details panel inside it; the card's view keeps its panel, which the model does not link to the page (see the line above).

## Findings

| source | as written | input that shows it | evidently intended | confidence | as-written member | corrected member |
|---|---|---|---|---|---|---|
| contentScript.js:428-456 | `changeSlide` adds the visible class at `newIdx`, then removes it at `oldIdx` | a listing with exactly one photo, then Next, Previous or an arrow key: both steps go from 0 to 0, and the only slide and thumbnail lose the class | moving to the photo already on show keeps it visible | not executed | Carousel.SinglePhotoVanishes | Carousel.MoveKeepsOneVisible |
