# TV-show viewer: client-side logic

A model of the small pieces of logic in the React front end of a TV-show
browser (`src/App.js`). The front end searches the TVmaze API for shows,
loads one show's details, episodes and cast, groups the episodes by season,
filters the season groups by episode name and switches between an Episodes
tab and a Cast tab. The model has seven modules in six files:

- `Seqs` (`seqs.dfy`): generic order-preserving filter (`Array.prototype.filter`),
  `some`, and the positions a filter keeps.
- `Grouping` (`grouping.dfy`): `groupEposiodesBySeason`. The `reduce` is a left
  fold into a map from season to episodes. `Object.entries` is modelled as
  listing the integer keys in ascending numeric order, as section 10.1.11.1 of
  ECMA-262 (OrdinaryOwnPropertyKeys) requires.
- `SeasonFilter` (`season_filter.dfy`): the season filter of `ShowSummary`.
  Case folding is ASCII only.
- `Catalog` and `Externals` (`catalog.dfy`): the API records the logic reads, and
  the truthy-id filter of the `Externals` list.
- `SummaryView` (`summary_view.dfy`): the tab flags, the filter text and the pane
  `ShowSummary` shows.
- `App` (`app.dfy`): the six state slots of `App`, plus `submitHandler` and
  `clickHandler`. Each handler is split into the part that runs at once and the
  callback that runs when its request settles. A settled request is an abstract
  `Outcome` (`Success(data)` or `Failure`). Traces of events model every
  interleaving the browser allows.

Facts about the code that the model keeps:

- The groups come out in ascending season order, because `Object.entries`
  lists integer-like keys in ascending numeric order. This is not the order
  in which seasons are first seen. `Grouping.NotFirstSeenOrder` shows an
  input where the two orders differ.
- `App` keeps no local cache of shows or details. It has no flag for a
  detail load in progress and no flag for a failed detail load.
- A failed detail load changes no state; the error is only logged.
- `Form` submits whatever has been typed, the empty query included.

## Model

| member | source | states |
|---|---|---|
| Grouping.Reduce | src/App.js:347-355 | the reduce ends with exactly the input's seasons as keys, and no key holds an empty list |
| Grouping.Collect | src/App.js:347-355 | the reducer adds the episode's season as a key and touches no other key; a new season starts as a one-element list, and a known season gets the episode appended |
| Grouping.ReduceBySeason | src/App.js:347-355 | the object the reduce builds has exactly one key per distinct season, and each key holds that season's input episodes in input order |
| Grouping.Entries | src/App.js:357 | `Object.entries` lists every key exactly once, paired with its value, in strictly ascending numeric key order |
| Grouping.GroupBySeason | src/App.js:346-358 | one group per distinct season, in ascending season order; each group holds exactly the input episodes of its season, in input order |
| Grouping.GroupsNonEmptyAndHomogeneous | src/App.js:348-351 | every group is non-empty, every episode in a group has the group's season, and season keys are pairwise distinct |
| Grouping.GroupKeepsInputOrder | src/App.js:351 | a group's episodes are the input at strictly increasing positions, namely exactly the positions whose season is the group's |
| Grouping.GroupingIsPermutation | src/App.js:347-355 | the flattened groups are a permutation of the input, so every episode is covered exactly once |
| Grouping.GroupingUnique | src/App.js:346-358 | at most one sequence meets the grouping characterisation, so the characterisation is a full reference definition of the grouper |
| Grouping.GroupingEmptyIff | src/App.js:346-358 | the grouper returns no groups iff it is given no episodes |
| Grouping.NotFirstSeenOrder | src/App.js:357 | input seasons 2 then 1 yield the season-1 group first, so the output is not in first-seen order |
| SeasonFilter.LowerChar | src/App.js:209 | a capital ASCII letter becomes its lower-case letter (code point plus 32), every other character is kept, and no capital letter comes out |
| SeasonFilter.Lower | src/App.js:209 | lower-casing keeps the length and folds each character on its own |
| SeasonFilter.LowerIdempotent | src/App.js:209 | lower-casing an already lower-cased string changes nothing, so the filter text is folded once |
| Seqs.Filter | src/App.js:204-211 | `filter` keeps at most the input, keeps only elements that pass, and keeps every element that passes |
| Seqs.Any | src/App.js:207-209 | `some` is true iff some element passes |
| SeasonFilter.Includes | src/App.js:209 | `includes` is true iff the needle occurs at some position of the haystack |
| SeasonFilter.FilterSeasons | src/App.js:204-211 | a group is kept iff it is an input group with an episode whose lower-cased name contains the lower-cased filter; kept groups are whole input groups |
| SeasonFilter.FilterSeasonsKeepsOrder | src/App.js:204-211 | kept groups sit at strictly increasing input positions, namely exactly the positions of matching groups |
| SeasonFilter.FilterSeasonsConcat | src/App.js:204-211 | filtering a concatenation filters each part, so kept groups keep their relative order |
| SeasonFilter.EmptyFilterKeepsAll | src/App.js:204-211 | the empty filter keeps every list of non-empty groups unchanged |
| SeasonFilter.FilterIgnoresCase | src/App.js:209 | two filter texts that are equal up to ASCII case select the same groups |
| SeasonFilter.FilterFoldsCase | src/App.js:209 | filtering by a text selects the same groups as filtering by its lower-cased form |
| SeasonFilter.FilterSeasonsIdempotent | src/App.js:204-211 | filtering the filtered groups again with the same text changes nothing |
| SeasonFilter.FilterSeasonsAscends | src/App.js:204-211 | if seasons ascend in the input, they ascend in the filtered output |
| SeasonFilter.FilteredSeasonsExactly | src/App.js:204-211 | a season is shown after filtering the grouper's output iff it is a season of the episodes and one of its episodes matches the filter |
| SeasonFilter.FilteredGroupingAscends | src/App.js:204-214 | the groups shown after filtering the grouper's output still ascend, and each still holds all of its season's episodes |
| Externals.Truthy | src/App.js:276 | an external id is truthy iff it is not `null`, `0` or the empty string |
| Externals.ExternalList | src/App.js:276 | an entry is kept iff its id is truthy (not `null`, `0` or `""`), and only input entries are kept |
| Externals.ExternalListKeepsOrder | src/App.js:276 | kept entries sit at strictly increasing input positions, namely exactly those with a truthy id |
| SummaryView.Click | src/App.js:171-190 | a tab click leaves exactly one tab open, the clicked one, whatever the flags were before |
| SummaryView.ClickShowsClicked | src/App.js:171-196 | after a click the component shows the clicked tab's pane |
| SummaryView.ReachableTabs | src/App.js:149-190 | from flags with exactly one tab open, any run of clicks keeps exactly one tab open; the open tab is the last one clicked |
| SummaryView.InitialTabsReachable | src/App.js:149-150 | starting from Episodes open and Cast closed, `isEpisodesOpen == !isCastOpen` always holds; Cast is open iff the last click was on Cast |
| SummaryView.CastThenEpisodesRestores | src/App.js:171-190 | clicking Cast shows the cast, and clicking Episodes after that restores the initial flags |
| SummaryView.ViewStep | src/App.js:198-202 | typing replaces the filter text and keeps the tabs; a tab click keeps the filter text |
| SummaryView.RunViewLast | src/App.js:148-200 | typing and clicking do not interfere: after any run of events the filter is the last text typed and the open tab is the last one clicked, and exactly one tab stays open |
| SummaryView.InitialViewReachable | src/App.js:148-200 | from the initial view the filter is the last text typed (empty if none), and the open tab is the last one clicked (Episodes if none) |
| SummaryView.Render | src/App.js:160-222 | the component is blank iff there are no episodes; with Episodes open it shows, in ascending season order, exactly the seasons with an episode matching the filter, each with all of its episodes; with Cast open it shows the cast |
| SummaryView.EmptyFilterShowsAllSeasons | src/App.js:204-214 | with the empty filter and Episodes open, every season group is shown |
| App.Decimal | src/App.js:43 | the id's template-literal rendering is a non-empty string of decimal digits ending in the id's last digit, one digit long iff the id is below 10 |
| App.DecimalValue | src/App.js:43 | the rendering is the canonical decimal of the id: its digits denote the id, and it has no leading zero unless the id is a single digit |
| App.DecimalInjective | src/App.js:43 | distinct ids render as distinct strings |
| App.SearchPath | src/App.js:26 | the search path is the fixed prefix `/search/shows?q=` followed by the query exactly as typed |
| App.DetailPaths | src/App.js:43 | there are three detail paths in endpoint order: `/shows/` followed by the id in decimal, then that path plus `/episodes`, then that path plus `/cast` |
| App.DetailPathsDistinct | src/App.js:43 | the three paths of one show are pairwise distinct, and distinct shows get distinct paths |
| App.Requests | src/App.js:26-44 | a submission fetches exactly the search path of its query; a selection fetches exactly the three detail paths of its id, in endpoint order; a settling callback fetches nothing |
| App.RequestsIdentify | src/App.js:26-44 | the paths an event fetches determine the event: same paths, same query or same show id |
| App.ShowsOf | src/App.js:28 | the projection has the response's length and holds each entry's `show`, in response order |
| App.StartSearch | src/App.js:22-24 | submitting turns loading on and the error flag off, and leaves the results, show, episodes and cast as they were |
| App.SettleSearch | src/App.js:27-39 | on success the results become the projected shows and the error flag is kept; on failure the error flag goes on and the results are kept; loading goes off either way; nothing else changes |
| App.SearchRoundTrip | src/App.js:22-39 | a search that settles with nothing in between ends with loading off; on success the results are the projected shows and no error; on failure the old results are kept and the error flag is on |
| App.SettleDetail | src/App.js:46-56 | on success show, episodes and cast become the three responses in endpoint order; on failure the state is unchanged; the results and both flags are never touched |
| App.Step | src/App.js:22-56 | a submission turns loading on and errors off and keeps the results; a settled search turns loading off, and on success sets the results to the response's shows and keeps the error flag, and on failure keeps the results and turns the error flag on; a settled detail load sets show, episodes and cast from the three responses on success and changes nothing on failure; a selection changes nothing until its requests settle; search events never touch show, episodes or cast, and detail events never touch the results or the flags |
| App.StepConsistent | src/App.js:15-57 | every event keeps the invariant: loading and error are never both on, show and cast are set together, and there are no episodes before they are set |
| App.RunConsistent | src/App.js:15-57 | any run of events from a consistent state ends in a consistent state |
| App.ReachableConsistent | src/App.js:15-57 | every state reachable from the initial state is consistent |
| App.CastPaneNeverNull | src/App.js:145-217 | in every reachable state, the cast pane is shown only with a non-null cast list |
| App.ShowsFromLastSearch | src/App.js:26-33 | under any interleaving, the results are those of the last search to settle successfully, or the starting ones if none has |
| App.DetailFromLastSettled | src/App.js:44-53 | under any interleaving, show, episodes and cast come from the last detail load to settle successfully, or are the starting ones if none has |
| App.BatmanSearch | src/App.js:22-33 | searching "batman" and getting one hit (id 1, "Batman") lists exactly that show, with loading and error both off |
| App.OverlappingSearches | src/App.js:22-39 | with two searches in flight, the first to settle turns loading off, and an older search settling last replaces the newer results |

## Left out

- `fetcher` and the HTTP and JSON work (src/App.js:8-12) are left out because they are I/O. Each request's result is the `Outcome` parameter.
- The `Promise.all` fan-out of the three detail requests (src/App.js:44-46) is left out because it is asynchronous concurrency. It is collapsed into one `Outcome` over the three responses.
- All JSX rendering, styling and the presentational components (`ShowDetail`, `Season`, `Episode`, `Cast`, `ShowList`, `Form`, `IsLoading`, `HasErrors`) are left out; `SummaryView.Render` only says which pane is shown and with what data.
- The `details open={filter.length}` toggle is left out because it is presentation.
- The `react-highlighter` and `react-country-flag` widgets are left out because they are third-party code.
- `createMarkup` and `dangerouslySetInnerHTML` are left out because they hold no logic.
- The `console.error` logging is left out because it is an output side effect that changes no state.
- SeasonFilter.Lower: folds only ASCII `A`-`Z`, while JavaScript's `toLowerCase` folds all of Unicode.
- Seasons that are not non-negative integers, or are `null`, are left out, because they would change the key order of `Object.entries`. Seasons are `nat`.
- Grouping.Entries: keeps the season as a number, while `Object.entries` returns the key as a decimal string.
- Grouping.Entries: orders every season numerically, but ECMA-262 does so only for array indices below 2^32 - 1. Larger seasons would be listed in insertion order after the others. The model does not bound seasons, because real season numbers are small.
- App.Decimal: renders every id as plain decimal digits. JavaScript renders a number at or above 10^21 in exponent form (`1e+21`), and numbers above 2^53 are not exact integers. The model takes ids as unbounded `nat`, because real TVmaze ids are small.
- NaN external ids are left out: `Externals.Truthy` treats every non-zero number as truthy.
- The render lag of `ShowSummary` is left out. Its `seasons` and `cast` copies are refreshed in `useEffect` after a render, and the model renders from the current episodes and cast directly.
- Of `clickHandler` and `submitHandler`, only the state effects and the request paths are modelled. The rendered search list and the `Form` input state are not.
