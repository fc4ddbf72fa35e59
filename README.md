# Helm chart search view: list and string handling

The OpenShift tools extension for VS Code has a webview for searching Helm
charts. A chart is listed only if it passes three filters:

- its provider type is one of the checked provider types;
- its provider is one of the selected provider chips, or no chip is selected;
- every white-space separated term of the search text occurs in its
  lower-cased display name, chart name or description.

The listed charts are sorted by display name and shown six per page. Each
list entry shows a title derived from the display name and a row of chips.

This project models that logic in Dafny and proves what it promises:

- `HelmSearch.Toggle` is the click handler shared by both filter pickers:
  `ProviderTypePicker.onCheckboxClick` (field `type`) and
  `ProvidersPicker.onClick` (field `name`, `helmSearch.tsx` lines 80-91).
  Both handlers drop every entry with the clicked key, append
  `{key, enabled: checked}` and sort the copy in place by key.
  The model proves four things about the result: it is sorted, it holds
  exactly one entry with the clicked key, that entry carries the new value,
  and every other entry keeps its multiplicity.
- `HelmSearch.InitEntries` builds the initial filter lists. Types start
  enabled and providers start disabled. `HelmSearch.ActiveKeys` gives the
  active keys of a list.
- `HelmSearch.GetFilteredCharts` runs the filter chain and sorts the
  survivors in an array by display name. It returns exactly the charts
  that pass, each as often as in the input, in display-name order.
- Paging: `HelmSearch.NumPages` is `ceil(n/6)`, `HelmSearch.PageItems` is
  the page slice with JavaScript `slice` semantics, and
  `HelmSearch.ShowingFrom` / `HelmSearch.ShowingTo` are the
  "Showing items" figures.
- `HelmListItem.CapitalizeFirstLetter` is characterised character by
  character and proved idempotent. `HelmListItem.ChipRow` is the row of
  chips.

Modules:

- `Strings`: the string primitives. `toUpperCase`/`toLowerCase` are ASCII
  case maps. `localeCompare` is lexicographic order on character codes,
  proved a total order. `includes` is a substring test. `split`/`join` work
  on one character, and `split(/\s+/)` splits on JavaScript's white-space
  class.
- `Sorting`: `Array.prototype.filter` as the function `Keep`, and the
  in-place sort as the insertion sort `SortBy` on an `array`.
- `ChartTypes`: the chart records.
- `HelmSearch` and `HelmListItem`: the two source files.

## Model

| member | source | states |
|---|---|---|
| `Strings.LessEq` | src/webview/helm-chart/app/helmSearch.tsx:172 | `a.localeCompare(b) <= 0` as lexicographic order on character codes, the order of the comparators at lines 47, 89 and 172; definition, proved a total order by the four `Strings.LessEq*` lemmas |
| `Strings.LessEqReflexive` | src/webview/helm-chart/app/helmSearch.tsx:171-173 | every display name or key compares equal to itself |
| `Strings.LessEqTotal` | src/webview/helm-chart/app/helmSearch.tsx:171-173 | any two strings are ordered one way or the other, so the comparator is total |
| `Strings.LessEqAntisymmetric` | src/webview/helm-chart/app/helmSearch.tsx:171-173 | two strings ordered both ways are equal |
| `Strings.LessEqTransitive` | src/webview/helm-chart/app/helmSearch.tsx:171-173 | the order is transitive |
| `Strings.Compare` | src/webview/helm-chart/app/helmSearch.tsx:172 | `localeCompare` is zero exactly for equal strings and non-positive exactly when the first is ordered before or equal to the second |
| `Strings.CompareAntisymmetric` | src/webview/helm-chart/app/helmSearch.tsx:172 | swapping the arguments of `localeCompare` flips the sign |
| `Strings.ContainsAt` | src/webview/helm-chart/app/helmSearch.tsx:244-246 | `includes` holds whenever the term occurs at some position |
| `Strings.ContainsWitness` | src/webview/helm-chart/app/helmSearch.tsx:244-246 | `includes` holds only when the term occurs at some position, which it returns |
| `Strings.ContainsEmpty` | src/webview/helm-chart/app/helmSearch.tsx:240-246 | the empty search term is included in every string |
| `Strings.Contains` | src/webview/helm-chart/app/helmSearch.tsx:244-246 | `includes`; definition, proved by `Strings.ContainsAt` and `Strings.ContainsWitness` to hold exactly when the term occurs at some position |
| `Strings.Lower` | src/webview/helm-chart/app/helmSearch.tsx:244-246 | `toLowerCase` of a display name, chart name or description, applied character by character; definition |
| `Strings.LowerChar` | src/webview/helm-chart/app/helmSearch.tsx:244-246 | `toLowerCase` on one character as an ASCII case map; definition, applied by `Strings.Lower` |
| `Strings.Upper` | src/webview/helm-chart/app/helmListItem.tsx:59 | `toUpperCase` on one character as an ASCII case map, as in the first character of each word and of the dash-free value (line 55); definition, its effect stated in `HelmListItem.CapitalizeFirstLetter` |
| `Strings.IndexOf` | src/webview/helm-chart/app/helmListItem.tsx:58 | the first position of the dash, at which `split('-')` cuts: a dash is there and none before it. The `indexOf('-') === -1` test of line 54 is `'-' !in value` in `HelmListItem.CapitalizeFirstLetter` |
| `Strings.SplitOn` | src/webview/helm-chart/app/helmListItem.tsx:58 | `split('-')` yields at least one piece and no piece contains a dash |
| `Strings.JoinSplit` | src/webview/helm-chart/app/helmListItem.tsx:58-60 | joining the pieces of `split(c)` with `c` gives the original string back |
| `Strings.SplitJoin` | src/webview/helm-chart/app/helmListItem.tsx:58-60 | splitting a join on a separator that no word holds gives the words back, the converse of `Strings.JoinSplit` |
| `Strings.Join` | src/webview/helm-chart/app/helmListItem.tsx:60 | `join(' ')` of the capitalized words; definition, with its properties in `Strings.JoinSplit`, `Strings.SplitJoin` and `HelmListItem.DashedCapitalizedAt` |
| `Strings.SplitWhitespace` | src/webview/helm-chart/app/helmSearch.tsx:240 | `split(/\s+/)` yields at least one term and no term holds white space; `Strings.JoinSplitWhitespace` and `Strings.SplitWhitespaceOfCollapse` fix which terms |
| `Strings.IsWhitespace` | src/webview/helm-chart/app/helmSearch.tsx:240 | the characters the JavaScript class `\s` matches; definition, used by `Strings.SplitWhitespace` and `Strings.JoinSplitWhitespace` |
| `Strings.SplitBlank` | src/webview/helm-chart/app/helmSearch.tsx:240 | a text of white space alone, the empty text included, splits into empty terms only |
| `Strings.JoinSplitWhitespace` | src/webview/helm-chart/app/helmSearch.tsx:240 | the terms of `split(/\s+/)` joined with single spaces are the text with every maximal run of white space replaced by one space (`Strings.Collapse`) |
| `Strings.SplitWhitespaceOfCollapse` | src/webview/helm-chart/app/helmSearch.tsx:240 | the terms of `split(/\s+/)` are exactly the pieces of `split(' ')` applied to the collapsed text, so a leading or trailing run yields an empty first or last term |
| `Sorting.Keep` | src/webview/helm-chart/app/helmSearch.tsx:41-42 | `filter` keeps each element that satisfies the predicate as often as it occurs, and drops every other |
| `Sorting.KeepMember` | src/webview/helm-chart/app/helmSearch.tsx:236-249 | an element survives `filter` exactly when it occurs in the input and satisfies the predicate |
| `Sorting.KeepAll` | src/webview/helm-chart/app/helmSearch.tsx:236-249 | a filter whose predicate holds everywhere returns its input unchanged |
| `Sorting.AdjacentSortedIsSorted` | src/webview/helm-chart/app/helmSearch.tsx:47 | a list whose neighbours are in key order is in key order throughout |
| `Sorting.SortedCopy` | src/webview/helm-chart/app/helmSearch.tsx:250-251 | copying a list into a fresh array and sorting it yields the same elements, ordered by key |
| `Sorting.SortBy` | src/webview/helm-chart/app/helmSearch.tsx:47 | the in-place sort leaves the array ordered by key and a permutation of what it held |
| `HelmSearch.CountKeyMultiset` | src/webview/helm-chart/app/helmSearch.tsx:41-46 | the entries with a key are those of it that are enabled plus those that are not |
| `HelmSearch.WithoutLength` | src/webview/helm-chart/app/helmSearch.tsx:81-82 | dropping the entries with the clicked key shortens the list by their number |
| `HelmSearch.Toggle` | src/webview/helm-chart/app/helmSearch.tsx:40-48 | for `ProviderTypePicker.onCheckboxClick` (lines 40-48) and the same steps in `ProvidersPicker.onClick` (lines 80-91): after a click the list is sorted by key and holds exactly one entry with the clicked key, enabled as checked. Every other entry keeps its multiplicity. The length is unchanged if the key was there once and grows by one if it was absent |
| `HelmSearch.InitEntries` | src/webview/helm-chart/app/helmSearch.tsx:200-220 | the initial list has one entry per incoming key, in the incoming order, all with the same enabled flag |
| `HelmSearch.ActiveKeys` | src/webview/helm-chart/app/helmSearch.tsx:226-232 | a key is active exactly when the list holds it enabled |
| `HelmSearch.Without` | src/webview/helm-chart/app/helmSearch.tsx:41-42 | the copy filtered to drop every entry with the clicked key; definition, with its length in `HelmSearch.WithoutLength` and its contents in the `Toggle` contract |
| `HelmSearch.InitialTypesAllActive` | src/webview/helm-chart/app/helmSearch.tsx:200-209 | right after setup every incoming provider type is active, in the incoming order |
| `HelmSearch.NoneEnabledNoneActive` | src/webview/helm-chart/app/helmSearch.tsx:230-232 | a list with nothing enabled has no active key |
| `HelmSearch.InitialProvidersNoneActive` | src/webview/helm-chart/app/helmSearch.tsx:211-220 | right after setup no provider is selected |
| `HelmSearch.HasActiveProviderType` | src/webview/helm-chart/app/helmSearch.tsx:236-237 | the chart's provider-type annotation is one of the active types; definition, used by `HelmSearch.FilterCharts` and characterised in `HelmSearch.InitialFilterKeepsKnownTypes` |
| `ChartTypes.Annotation` | src/webview/helm-chart/app/helmSearch.tsx:237 | `annotations[key]` of the first chart version, absent as `None` (the provider read at line 255 likewise); definition, used by `HelmSearch.HasActiveProviderType` and `HelmSearch.IsToBeIncluded` |
| `HelmSearch.IsToBeIncluded` | src/webview/helm-chart/app/helmSearch.tsx:254-256 | `isToBeIncluded`: no provider selected, or the chart's provider is selected; definition, with the empty-selection case in `HelmSearch.ByProviderNoneSelected` |
| `HelmSearch.TermMatches` | src/webview/helm-chart/app/helmSearch.tsx:243-246 | one term occurs in the lower-cased display name, chart name or (when present) description; definition |
| `HelmSearch.MatchesSearch` | src/webview/helm-chart/app/helmSearch.tsx:239-249 | every term of `split(/\s+/)` matches; definition, with the blank-text case in `HelmSearch.BlankSearchKeepsAll` |
| `HelmSearch.ByProviderType` | src/webview/helm-chart/app/helmSearch.tsx:236-237 | the provider-type filter stage; definition, combined in `HelmSearch.FilterCharts` |
| `HelmSearch.ByProvider` | src/webview/helm-chart/app/helmSearch.tsx:238 | the provider filter stage; definition, with `HelmSearch.ByProviderNoneSelected` |
| `HelmSearch.BySearch` | src/webview/helm-chart/app/helmSearch.tsx:239-249 | the search filter stage; definition, with `HelmSearch.BlankSearchKeepsAll` |
| `HelmSearch.Passes` | src/webview/helm-chart/app/helmSearch.tsx:236-249 | a chart passes all three filters; definition, the condition of `HelmSearch.FilterCharts`, `HelmSearch.GetFilteredCharts` and `HelmSearch.InitialFilterKeepsKnownTypes` |
| `HelmSearch.FilterCharts` | src/webview/helm-chart/app/helmSearch.tsx:236-249 | the filter chain keeps a chart, as often as it occurs, exactly when its provider type is active, its provider is selected or none is, and every search term matches |
| `HelmSearch.AscName` | src/webview/helm-chart/app/helmSearch.tsx:171-173 | `ascName` is non-positive exactly when the first display name is ordered before or equal to the second, and zero exactly for equal names |
| `HelmSearch.GetFilteredCharts` | src/webview/helm-chart/app/helmSearch.tsx:234-252 | the result is ordered by `ascName` and holds exactly the charts that pass all three filters, as often as the input does; so it is a sub-multiset of the input |
| `HelmSearch.SortedByName` | src/webview/helm-chart/app/helmSearch.tsx:251 | a list sorted by display name is ordered by `ascName` pairwise |
| `HelmSearch.FilteredMembers` | src/webview/helm-chart/app/helmSearch.tsx:250-251 | any reordering of the filtered charts contains only input charts that pass every filter |
| `HelmSearch.ByProviderNoneSelected` | src/webview/helm-chart/app/helmSearch.tsx:254-256 | with no provider selected the provider filter returns its input unchanged |
| `HelmSearch.NoProviderSelectedKeepsAll` | src/webview/helm-chart/app/helmSearch.tsx:254-256 | when no provider chip is enabled the provider filter keeps every chart |
| `HelmSearch.BlankSearchKeepsAll` | src/webview/helm-chart/app/helmSearch.tsx:239-249 | an empty or blank search text keeps every chart |
| `HelmSearch.InitialFilterKeepsKnownTypes` | src/webview/helm-chart/app/helmSearch.tsx:200-238 | with the initial filter lists and an empty search, a chart is listed exactly when its provider type is one of the incoming types |
| `HelmSearch.NumPages` | src/webview/helm-chart/app/helmSearch.tsx:307-308 | the page count is the least number of six-item pages that hold all n items, i.e. `ceil(n/6)` |
| `HelmSearch.Slice` | src/webview/helm-chart/app/helmSearch.tsx:318-322 | with non-negative bounds `slice` returns the elements from `start` up to `end` clamped to the length, and nothing when `end` is at or before `start` |
| `HelmSearch.PageItems` | src/webview/helm-chart/app/helmSearch.tsx:318-322 | a page lists at most six items, and its k-th item is item `(page-1)*6 + k` |
| `HelmSearch.ShowingFrom` | src/webview/helm-chart/app/helmSearch.tsx:336 | the "from" figure `(currentPage - 1) * 6 + 1`; definition, bounded in `HelmSearch.ShowingRange` and `HelmSearch.PastLastPage` |
| `HelmSearch.ShowingTo` | src/webview/helm-chart/app/helmSearch.tsx:337 | the "to" figure `min(currentPage * 6, total)`; definition, bounded in `HelmSearch.ShowingRange` and `HelmSearch.PastLastPage` |
| `HelmSearch.ShowingRange` | src/webview/helm-chart/app/helmSearch.tsx:335-338 | on every page up to the page count the "Showing items" figures satisfy 1 <= from <= to <= total, and the page lists exactly items from..to |
| `HelmSearch.PastLastPage` | src/webview/helm-chart/app/helmSearch.tsx:318-338 | past the last page nothing is listed and "from" exceeds "to"; with no charts page 1 reads "1 - 0 of 0" |
| `HelmSearch.PagesCoverEveryItem` | src/webview/helm-chart/app/helmSearch.tsx:307-322 | every item appears on a page between 1 and the page count, at position `k % 6` of page `k / 6 + 1` |
| `HelmListItem.CapitalizeWords` | src/webview/helm-chart/app/helmListItem.tsx:59 | `map` applies the word capitalizer to every word, in order, and keeps the number of words |
| `HelmListItem.CapitalizeWord` | src/webview/helm-chart/app/helmListItem.tsx:59 | upper-cases the first character of a word and keeps the rest; definition, with its per-character effect in `HelmListItem.DashedCapitalizedAt` |
| `HelmListItem.CapitalizeFirstLetter` | src/webview/helm-chart/app/helmListItem.tsx:53-61 | the title has the length of the value and no dash. Each dash becomes a space. The first character and every character after a dash is upper-cased, and every other character is kept, in both branches |
| `HelmListItem.DashedCapitalizedAt` | src/webview/helm-chart/app/helmListItem.tsx:57-60 | the split-map-join branch produces, character by character, the value with dashes as spaces and each word's first character upper-cased |
| `HelmListItem.UnfoldFirstWord` | src/webview/helm-chart/app/helmListItem.tsx:57-60 | the split-map-join result is the first word capitalized, a space, and the same treatment of the text after the first dash |
| `HelmListItem.CapitalizeFirstLetterIdempotent` | src/webview/helm-chart/app/helmListItem.tsx:53-61 | capitalizing a title a second time changes nothing |
| `HelmListItem.ProviderTypeChip` | src/webview/helm-chart/app/helmListItem.tsx:151-155 | the primary chip with the provider type, when that annotation is truthy; definition, properties in `HelmListItem.ChipRowShape` |
| `ChartTypes.AnnotationTruthy` | src/webview/helm-chart/app/helmListItem.tsx:151 | JavaScript truthiness of an annotation, present and not empty, as tested at lines 151 and 157; definition, properties in `HelmListItem.ChipRowShape` |
| `HelmListItem.ProviderOrMaintainerChip` | src/webview/helm-chart/app/helmListItem.tsx:157-169 | the success chip with the provider when that annotation is truthy (present and not empty), else the first maintainer's name, else none; definition, properties in `HelmListItem.ChipRowShape` |
| `HelmListItem.VersionChip` | src/webview/helm-chart/app/helmListItem.tsx:171-175 | the error-coloured chip with the version; definition, properties in `HelmListItem.ChipRowShape` |
| `HelmListItem.ChipRow` | src/webview/helm-chart/app/helmListItem.tsx:150-176 | the chips left to right; definition, properties in `HelmListItem.ChipRowShape` |
| `HelmListItem.ChipRowShape` | src/webview/helm-chart/app/helmListItem.tsx:150-176 | a provider-type chip is shown exactly when that annotation is truthy. A success chip is shown exactly when the provider annotation is truthy (present and not empty) or a maintainer exists; it shows the provider when that annotation is truthy, else the first maintainer's name. The version chip is always shown, last |

## Left out

- React rendering, MUI layout, the icon, the description text and the link button of a list entry: presentation only.
- Message passing with the extension host (`respondToMessage`, `VSCodeMessage.postMessage`) and the modal state: I/O with code outside the webview.
- The page-reset effect (`helmSearch.tsx` lines 222-224): any change to the filters or the search text sets the page back to 1. Page 1 is within the page count whenever a chart survives (`HelmSearch.NumPages`), but effect scheduling is not modelled.
- The React state setters: `HelmSearch.Toggle` and `HelmSearch.InitEntries` return the new list instead of handing it to `setProviderTypeEnabled` / `setProviderEnabled`.
- Lower-casing of the typed search text (`helmSearch.tsx` line 142): the model takes the stored search text as given.
- Strings.Compare: models `localeCompare` as lexicographic order on character codes, not the locale's collation.
- Strings.Upper: models `toUpperCase` and `toLowerCase` as ASCII case maps. Unicode case mapping, which can change a string's length, is not captured.
- Sorting.SortBy: does not state that the sort is stable. JavaScript's sort keeps entries with equal keys, or charts with equal display names, in their input order.
- `chartVersions` beyond the first: the model keeps only `chartVersions[0]`, the only version the view reads. A chart with no versions, on which the view throws, is not representable.
- A missing `displayName`: the model always has one. Sorting or titling a chart without one throws in the view.
- A missing `maintainers` list is modelled as the empty list; both show no maintainer chip.
- HelmListItem.CapitalizeFirstLetter: requires a non-empty value, because on the empty string the view reads `value[0]` and throws.
- The `> 0.0001` comparison in the page count compares an integer remainder, so it is modelled as `> 0`.
- `src/webview/serverless-function/serverlessFunctionLoader.ts` and `test/integration/command.test.ts` are not part of this model: webview panels, CLI subprocesses and live-cluster tests.
