# LocalLore in Dafny

LocalLore is a travel web app. A traveller types a destination and picks some
interests. A hosted language model, grounded in Google Maps, is asked for
hidden gems in a fixed text format. The app parses that text into place cards.
The traveller selects up to five places, and a second model call turns them
into a one-day itinerary, with a fallback plan when that call or its JSON
fails.

This project models the logic of that app and proves what it guarantees:

- `GeminiService` (services/geminiService.ts). The parser turns the model's
  text into places. It models the exact JavaScript behaviour of:
  - `split` with the regular expression `/###\s*Place\s*\d+:/i`;
  - the blank-entry filter;
  - the first-match semantics of the field patterns `\*\*Label\*\*:\s*(.+)`,
    including how `\s*` crosses line breaks and gives characters back;
  - the two-pass map-citation lookup;
  - ids, image URLs and tags.

  It also covers what the discovery call does with a response or a failure,
  and the itinerary generator: the code-fence stripping, the `JSON.parse`
  step and the fallback schedule.
- `App` (App.tsx). The app's state is a class whose fields are the React
  state hooks. Its event handlers are methods: search, toggling a place with
  the five-place limit, creating an itinerary, and navigating.
- `Hero` (components/Hero.tsx). The search form is a class: destination
  input, interest toggles, submit and the disabled state.
- `Types` (types.ts). The records the app passes around.
- `Strings`, `Sequences` and `Wrappers`. These model the JavaScript string
  and array built-ins the code relies on (`trim` with the ECMAScript white
  space set, `split(',')`, `join`, `replace(/…/g, '')`, `filter`, `find`,
  `includes`, decimal rendering), plus `Option`/`Result`.

Everything outside the program is a parameter of the operation that uses it:

- The language model is a function from the data its prompt is built from to
  a response. The response is either a failure or a text with optional
  grounding chunks.
- `JSON.parse` is a function from text to an optional itinerary.
- `Date.now()` is a clock indexed by entry position.
- `toLowerCase` is a string function.

## Model

| member | source | states |
|---|---|---|
| GeminiService.WhiteEnd | services/geminiService.ts:10 | a greedy `\s*` run stops at the first character that is not white space, with every character before it white |
| GeminiService.DigitEnd | services/geminiService.ts:10 | a greedy `\d+` run stops at the first character that is not an ASCII digit, with every character before it a digit |
| GeminiService.HeaderEndIsMatch | services/geminiService.ts:10 | `HeaderEnd` reports a match at an index exactly when the text there reads "###", white space, "Place" in any letter case, white space, one or more digits and ":", and the match ends after the ":"; every such reading ends at the same place |
| GeminiService.HeaderRunsAreGreedy | services/geminiService.ts:10 | in a header, the greedy white-space and digit runs stop exactly where the pattern needs them, so no backtracking can yield another match |
| GeminiService.NoHeaderOnePiece | services/geminiService.ts:10 | `SplitOnHeaders` of text that holds no `### Place N:` header gives the whole text as the only piece |
| GeminiService.FirstHeaderSplits | services/geminiService.ts:10 | the text before the first header is the first piece; the remaining pieces are the split of the text after that header |
| GeminiService.SplitSkipsNonHeaders | services/geminiService.ts:10 | positions where no header starts leave the split unchanged |
| GeminiService.EntriesWithoutHeader | services/geminiService.ts:10 | text without a header is a single entry, or no entry when it is blank |
| GeminiService.EntriesAtFirstHeader | services/geminiService.ts:10 | `Entries` (split, then the blank filter) is the text before the first header (when not blank) followed by the entries of the rest; blank pieces are dropped |
| GeminiService.LineEnd | services/geminiService.ts:13-17 | the scan stops at the first line terminator at or after the start, or at the end of the text, and holds no line terminator before that |
| GeminiService.CaptureStart | services/geminiService.ts:13-17 | backtracking `\s*` yields the last index at or before its greedy end that holds a character other than a line terminator; none exactly when every candidate is a line terminator or the end |
| GeminiService.CaptureAt | services/geminiService.ts:13-17 | a captured `(.+)` group is non-empty and holds no line terminator |
| GeminiService.FirstMatch | services/geminiService.ts:13-17 | the index found is one where the field pattern matches |
| GeminiService.FieldAbsent | services/geminiService.ts:13-17 | a field whose `**Label**:` marker does not occur in the entry has no match |
| GeminiService.FirstMatchAt | services/geminiService.ts:13-17 | a match at the first occurrence of the marker is the match `match` reports |
| GeminiService.CaptureAfterWhite | services/geminiService.ts:13-17 | when the white space after the marker is followed by a character, the group is the rest of that character's line |
| GeminiService.FieldAtFirstOccurrence | services/geminiService.ts:13-19 | at the marker's first occurrence, `FieldCapture` is the text from the first character that is not white space up to the end of its line (with line breaks skipped on the way), and `FieldOr` is that text trimmed |
| GeminiService.FieldBlankCapture | services/geminiService.ts:13-19 | when only white space follows the marker's first occurrence to the end of the entry, and some of it is not a line break, `\s*` gives a character back and the field is the empty string, not the default |
| GeminiService.FieldOnlyBreaks | services/geminiService.ts:13-19 | when only line breaks follow the marker's first occurrence to the end of the entry, the pattern matches nowhere and the field gets its default |
| GeminiService.BlankNameAtEntryEnd | services/geminiService.ts:13-19 | the entry `"**Name**: \n"` on its own gets the empty name, an instance of `FieldBlankCapture` |
| GeminiService.MissingNameAtEntryEnd | services/geminiService.ts:13-19 | the entry `"**Name**:\n"` on its own, at index 0, gets the name "Hidden Spot 1", an instance of `FieldOnlyBreaks` |
| GeminiService.MissingFieldsDefault | services/geminiService.ts:19-36 | in the place `BuildPlace` makes, each field whose marker is absent gets its documented default: "Hidden Spot N" (N one-based), the description, category and reason texts, and the tags Local and Authentic |
| GeminiService.TagsFromCapture | services/geminiService.ts:36 | `PlaceTags`, when the tags marker matches, gives the comma-separated pieces of the captured text, each trimmed, in order, one more than there are commas, with empty pieces kept; the pieces rejoin into the capture |
| GeminiService.MapChunkIndex | services/geminiService.ts:22-26 | the chunk chosen is the first whose maps title occurs in the lower-cased name; failing that, the first whose title contains the name; no chunk exactly when neither test passes anywhere |
| GeminiService.MapCitation | services/geminiService.ts:22-35 | a place `BuildPlace` makes has a map link and location exactly when some chunk passes one of the two tests (so never when there are no chunks), and they are the uri and title of the chunk the two-pass search picks |
| GeminiService.PlaceIdsDistinct | services/geminiService.ts:29 | `PlaceId` values built for different entry positions differ, whatever the two clock readings are |
| GeminiService.ParsedIdsDistinct | services/geminiService.ts:28-38 | the places of one parse have pairwise different ids, and place `i` shows the `ImageUrl` image `random=i+10` |
| GeminiService.PlacesFromEntries | services/geminiService.ts:12-40 | the loop pushes exactly one place per entry, in entry order, each built from its entry, its position and the clock reading for it |
| GeminiService.ParsePlacesFromText | services/geminiService.ts:8-43 | the result is the parse of the text: one place per non-blank piece between headers, in order, ids pairwise different, image numbered by position |
| GeminiService.InterestStringLists | services/geminiService.ts:51 | with no interests `InterestString` reads "culture and food"; otherwise splitting the interest string on commas and trimming gives back the trimmed interests, provided none holds a comma |
| GeminiService.DiscoverHiddenGems | services/geminiService.ts:45-102 | a failed model call becomes the error "Failed to discover places. Please try again."; any response becomes the parse of its text (empty when missing) together with its chunks (empty when missing), with distinct ids |
| GeminiService.PlaceNamesLists | services/geminiService.ts:105 | `PlaceNames`, the stop list in the itinerary prompt, names every selected place in order: split on commas and trimmed it gives the trimmed names back, when the selection is not empty and no name holds a comma (an empty selection gives `[""]`, not `[]`) |
| GeminiService.StripFencesRemovesAll | services/geminiService.ts:136 | no "```" survives `StripFences` |
| GeminiService.StripFencesIdempotent | services/geminiService.ts:136 | stripping fences from stripped text changes nothing |
| GeminiService.CleanJsonUnwraps | services/geminiService.ts:134-136 | `CleanJson` hands a body wrapped in a "```json … ```" fence to `JSON.parse` without the fence, when the body holds no backtick (the global replaces would also cut a "```" inside it) |
| GeminiService.FallbackSchedule | services/geminiService.ts:142-149 | `FallbackItinerary` is titled "Your Custom Day" and has one stop per selected place, in order; stop `i` is at hour 9 + 2i on the hour (unbounded), visits the place by name and copies its description |
| GeminiService.GenerateItinerary | services/geminiService.ts:104-151 | the itinerary is what `JSON.parse` makes of the cleaned response text whenever the call answers with text that parses, and the fallback plan whenever the call fails, the text is missing, or the parse fails |
| App.ToggleRemoves | App.tsx:52-54 | `NextSelection` of a selected place removes it and keeps every other selected place in order; afterwards it is not selected |
| App.ToggleAddsOrRefuses | App.tsx:55-60 | `NextSelection` of an unselected place appends it when fewer than five are selected and leaves the selection as it was otherwise; a second toggle restores the selection |
| App.ToggleKeepsSelectionOk | App.tsx:52-61 | toggling keeps the selection at most five places with pairwise different ids |
| App.AppState.constructor | App.tsx:10-17 | the hooks start on the home view, with nothing loading, no places, no selection, no itinerary, no chunks and no location |
| App.AppState.ReceiveLocation | App.tsx:23-28 | a position from geolocation is stored as the user location |
| App.AppState.HandleSearch | App.tsx:36-50 | the destination is recorded either way; a failed discovery raises the API-key alert and leaves places, chunks, view and selection as they were; a successful one stores the parsed places and chunks, clears the selection and shows the results; loading ends false |
| App.AppState.TogglePlaceSelection | App.tsx:52-62 | the selection becomes the toggled selection; the limit alert is raised exactly when an unselected place meets five selected places; the selection invariant is kept |
| App.AppState.HandleCreateItinerary | App.tsx:64-76 | with no selection nothing changes; otherwise the generated itinerary is stored and the itinerary view shown, which keeps the view's itinerary present; while the build button (App.tsx:121) is disabled a click changes nothing, and while it is enabled a click shows the itinerary view with an itinerary present; since the button is rendered only in the results view, there it is disabled exactly when a click would change nothing |
| App.AppState.GoBack | App.tsx:173 | the itinerary view's back button returns to the results |
| App.AppState.ShowHome | App.tsx:84-86 | the logo returns to the home view |
| Hero.ToggleInterestRemoves | components/Hero.tsx:21-25 | `ToggledInterests` of a selected interest removes it and keeps the others in order |
| Hero.ToggleInterestTwice | components/Hero.tsx:21-25 | toggling an unselected interest appends it, and toggling it again restores the list |
| Hero.ToggleInterestKeepsSet | components/Hero.tsx:21-25 | toggling keeps the interests free of duplicates, and within the five offered ids when they were and the id is one of them |
| Hero.HeroForm.constructor | components/Hero.tsx:18-19 | the form starts with an empty destination and no interests |
| Hero.HeroForm.SetDestination | components/Hero.tsx:67 | the field holds exactly what was typed |
| Hero.HeroForm.ToggleInterest | components/Hero.tsx:21-25 | the interests become the toggled list and stay free of duplicates |
| Hero.HeroForm.HandleSubmit | components/Hero.tsx:27-32 | a search is requested exactly when the destination holds a character that is not white space, and it carries the untrimmed destination and the selected interests |
| Hero.HeroForm.SubmitDisabled | components/Hero.tsx:102 | submit is disabled exactly when loading or when the destination is all white space |
| Strings.TrimStart | services/geminiService.ts:19 | the result is a suffix after a white-space prefix, and does not start with white space |
| Strings.TrimEnd | services/geminiService.ts:19 | the result is a prefix before a white-space suffix, and does not end with white space |
| Strings.Trim | services/geminiService.ts:19 | the trimmed text neither starts nor ends with white space, and it is empty exactly when the text is all white space |
| Strings.TrimIsMiddle | services/geminiService.ts:19 | the trimmed text is a slice of the text whose cut-off prefix and suffix are all white space, so with `Trim`'s contract it is the text with exactly its white ends removed |
| Strings.TrimIdempotent | services/geminiService.ts:19 | trimming twice is trimming once |
| Strings.Contains | services/geminiService.ts:22-26 | `includes` holds exactly when the substring occurs at some index |
| Strings.NatToString | services/geminiService.ts:29 | the decimal rendering is a non-empty string of digits without a leading zero |
| Strings.DecimalRoundTrip | services/geminiService.ts:145 | reading back a rendered number gives the number |
| Strings.NatToStringInjective | services/geminiService.ts:29 | different numbers render differently |
| Strings.Split | services/geminiService.ts:36 | `split(',')` gives one more piece than there are commas, none holding a comma |
| Strings.JoinSplit | services/geminiService.ts:36 | `Join` of the pieces of a split, with the separator, gives back the text |
| Strings.SplitJoin | services/geminiService.ts:36 | splitting a join of comma-free pieces gives back the pieces |
| Strings.SplitCommaSpaceJoin | services/geminiService.ts:51 | splitting a `join(", ")` of comma-free items on commas and trimming gives the trimmed items |
| Strings.RemoveAll | services/geminiService.ts:136 | removing every occurrence never lengthens the text |
| Strings.RemoveAllAbsent | services/geminiService.ts:136 | removing a pattern that does not occur changes nothing |
| Strings.RemoveAllBackticks | services/geminiService.ts:136 | after removing every "```" none is left |
| Sequences.Filter | services/geminiService.ts:10 | the kept elements are elements of the list that pass the test, and no more than the list holds |
| Sequences.FilterKeepsSatisfying | services/geminiService.ts:10 | every element that passes the test is kept |
| Sequences.FilterAppend | services/geminiService.ts:10 | filtering distributes over concatenation |
| Sequences.FilterDropsOne | App.tsx:54 | filtering out exactly one failing element leaves the rest in order |
| Sequences.FindIndex | App.tsx:53 | `find` reports the first element passing the test, and nothing exactly when none passes |
| Sequences.FirstFrom | services/geminiService.ts:13-17 | the first candidate index found lies in range and passes the test |
| Sequences.FirstFromIsFirst | services/geminiService.ts:13-17 | no candidate is found exactly when none passes, and none before the one found passes |
| Sequences.FirstFromAt | services/geminiService.ts:13-17 | an index that passes, with none passing before it, is the one the scan reports |
| Sequences.FilterKeepsNoDuplicates | components/Hero.tsx:23 | filtering a duplicate-free list keeps it duplicate-free |
| Sequences.FilterKeepsDistinctBy | App.tsx:54 | filtering a list with distinct keys keeps the keys distinct |

## Left out

- The Google GenAI client, the prompt texts and the request configuration are not modelled. Each call is an oracle from the data the prompt is built from (destination, interest string or stop list, and user location) to a response.
- `JSON.parse(cleanJson) as Itinerary` is an oracle from text to an optional itinerary. The cast is unchecked in the code, so parsed JSON that is not shaped like an itinerary is not modelled. In particular `JSON.parse("null")` returns `null`, which App.tsx:169 guards against with `itinerary &&`; the oracle cannot return it, so the invariant that the itinerary view has an itinerary holds only for parses that yield an object.
- `Date.now()` is read once per entry inside the `forEach`, so two places of one parse may carry different readings. The model follows the code and takes a clock indexed by entry position; the id distinctness it proves holds for any readings.
- `toLowerCase` is Unicode case mapping, which the model takes as a parameter. The regular expression's `i` flag is modelled exactly, because only ASCII letters fold onto the letters of "Place".
- Strings are sequences of Unicode characters, not UTF-16 code units. Surrogate pairs and lone surrogates are not modelled.
- Geolocation, `alert`, `console.log`/`console.error`, `preventDefault` and rendering (JSX, CSS classes, the citation chips and the result counter) are not modelled. Alerts are returned as values.
- Asynchrony is left out: each handler runs as one atomic step. React's batching of state updates and interleaving of overlapping requests are not modelled.
- App.AppState.HandleCreateItinerary: has no alert path for "Could not generate itinerary.", because `generateItinerary` catches every failure itself and never rejects.
- `chunks?` being optional in `parsePlacesFromText` is modelled as a plain list. The only caller always passes a list, defaulting to the empty one.
- Coordinates are `real`, not IEEE doubles; they are only passed through.
- Place `rating` is never set by the parser and stays absent. The `web` and review-snippet parts of a chunk are carried but never read.
- `SearchState` in types.ts is declared but never used, so it has no counterpart.
- ExperienceCard.tsx and ItineraryView.tsx are not part of this model: they only render.
