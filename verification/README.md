# Berry store list view, in Dafny

This project models the list view-state of the berry store (`useBerryStore`)
of a small catalogue front-end. The store holds:

- the fetched list of `{name, url}` berry entries;
- the view parameters `searchQuery`, `currentPage` and `itemsPerPage`;
- a name-keyed cache of detailed berry records, plus the selected berry.

From that state, four getters derive what the user sees:

- `filteredBerries`: a case-insensitive substring search on the name;
- `sortedBerries`: the filtered list sorted by name;
- `paginatedBerries`: the current page of the sorted list;
- `totalPages`: the page count.

Four mutators change the view: `setPage`, `setItemsPerPage`,
`setSearchQuery` and `deleteBerry`. A cache hit in `fetchBerryDetails` is
the one other synchronous path.

The model is functional. `BerryStore.State` is an immutable record, each
getter is a pure function of it, and each mutator returns the next state.

Files:

- `berry_types.dfy`: the list entry (`NamedRef`), the detailed `Berry`
  record and `Option`.
- `js_strings.dfy`: the string operations the getters call. These are
  `toLowerCase` (`ToLower`), `includes` (`Includes`) and `localeCompare`
  (`Compare`).
- `list_view.dfy`: the derivations on plain sequences.
  - `Keep` models `Array.prototype.filter`.
  - `Search` is the name search.
  - `SortByName` is the stable sort by name.
  - `Slice`, `Page` and `PageCount` cover paging.
- `berry_store.dfy`: the store state, its getters and mutators, the cache-hit
  lookup, and the properties that link mutators to getters.
- `scenarios.dfy`: concrete scenarios on a three-berry list (cheri,
  chesto, pecha), proved as lemmas.

`deleteBerry` uses `filter` (`src/stores/PiniaBerry.ts:100`), so it removes
every record with the given name, not only the first one: see `DeleteBerry`
and `DeleteBerryCount`.

## Model

| member | source | states |
|---|---|---|
| JsStrings.LowerChar | src/stores/PiniaBerry.ts:32 | An upper-case ASCII letter becomes the same letter in lower case (code point plus 32). Every other character stays as it is. |
| JsStrings.ToLower | src/stores/PiniaBerry.ts:32 | `toLowerCase` keeps the length and maps each upper-case ASCII letter to its lower-case letter. It leaves every other character as it is, so no upper-case ASCII letter remains. |
| JsStrings.ToLowerIgnoresCase | src/stores/PiniaBerry.ts:32 | Two strings that differ only in the case of ASCII letters lower-case to the same string. |
| JsStrings.ToLowerIdempotent | src/stores/PiniaBerry.ts:32 | Lower-casing an already lower-cased string changes nothing. |
| JsStrings.Includes | src/stores/PiniaBerry.ts:32 | `includes` can hold only when the query is no longer than the name. |
| JsStrings.IncludesIffOccurs | src/stores/PiniaBerry.ts:32 | `includes` holds exactly when the query occurs at some position of the lower-cased name. |
| JsStrings.IncludesFirstChar | src/stores/PiniaBerry.ts:32 | A name can include a non-empty query only if it contains the query's first character. |
| JsStrings.IncludesEmpty | src/stores/PiniaBerry.ts:30-32 | Every name includes the empty query. |
| JsStrings.Compare | src/stores/PiniaBerry.ts:38 | The name comparison returns -1, 0 or 1. It returns 0 exactly when the two names are equal. |
| JsStrings.CompareAntisymmetric | src/stores/PiniaBerry.ts:38 | Swapping the two names negates the comparison, so the order is total. |
| JsStrings.CompareTransitive | src/stores/PiniaBerry.ts:38 | "Sorts no later than" is transitive. |
| ListView.Keep | src/stores/PiniaBerry.ts:31-33 | `filter` returns no more records than it was given, and every record it returns satisfies the predicate. |
| ListView.KeepCount | src/stores/PiniaBerry.ts:31-33 | `filter` keeps every record that satisfies the predicate exactly as often as it occurs, and drops every other record. |
| ListView.KeepConcat | src/stores/PiniaBerry.ts:31-33 | Filtering a concatenation filters each part: `filter` never reorders. |
| ListView.KeepCommutes | src/stores/PiniaBerry.ts:31-33 | Two filters applied one after the other commute. |
| ListView.KeepIdempotent | src/stores/PiniaBerry.ts:100 | Filtering twice with the same predicate is the same as filtering once. |
| ListView.MatchesQuery | src/stores/PiniaBerry.ts:31-33 | The filter callback accepts a record only when the query is no longer than the record's name. |
| ListView.Search | src/stores/PiniaBerry.ts:31-33 | Every record the search returns has a lower-cased name that includes the lower-cased query. |
| ListView.SearchCount | src/stores/PiniaBerry.ts:31-33 | The search returns each matching record exactly as often as it occurs, and no other record. |
| ListView.SearchKeepsOrder | src/stores/PiniaBerry.ts:31-33 | The search keeps the source order. |
| ListView.SearchCaseInsensitive | src/stores/PiniaBerry.ts:32 | Two queries that lower-case to the same string select the same records. |
| ListView.SearchIgnoresQueryCase | src/stores/PiniaBerry.ts:31-33 | Changing the case of the query's ASCII letters does not change which records the search selects. |
| ListView.MatchIgnoresNameCase | src/stores/PiniaBerry.ts:32 | Changing the case of a name's ASCII letters does not change whether the name matches a query. |
| ListView.SearchEmptyQuery | src/stores/PiniaBerry.ts:30 | The empty query selects the whole list unchanged. The `!searchQuery` short cut therefore returns what the search would. |
| ListView.Insert | src/stores/PiniaBerry.ts:37-39 | Inserting one record into a sorted list keeps it sorted, adds exactly that record, and grows the list by one. |
| ListView.InsertWithName | src/stores/PiniaBerry.ts:37-39 | Insertion puts the new record in front of every record with the same name. |
| ListView.SortByName | src/stores/PiniaBerry.ts:37-39 | The sort result is ordered by name, is a permutation of its input, and keeps records with equal names in their input order. |
| ListView.SortedStableUnique | src/stores/PiniaBerry.ts:37-39 | Two sorted lists with the same per-name order are equal, so sortedness and stability fix the result. |
| ListView.SortByNameCharacterized | src/stores/PiniaBerry.ts:37-39 | A list is the sort of `xs` exactly when it is sorted by name and stable with respect to `xs`. |
| ListView.SortSortedIsIdentity | src/stores/PiniaBerry.ts:37-39 | Sorting a list that is already in name order leaves it unchanged. |
| ListView.Slice | src/stores/PiniaBerry.ts:45 | `slice(start, end)` for `0 <= start <= end` returns the records from `start` up to `end` clamped to the length, and nothing when `start` is at or past the end. |
| ListView.Page | src/stores/PiniaBerry.ts:43-45 | A page holds at most `itemsPerPage` records, taken in order from offset `(page-1)*itemsPerPage`. It is exactly the slice of the list from that offset to the offset plus `itemsPerPage`, both clamped to the list's length. So it is empty exactly when the offset is at or past the end, and full when the list reaches past the page's end. |
| ListView.PageCount | src/stores/PiniaBerry.ts:49 | The page count is the least `n` with `n*itemsPerPage >= count`. It is 0 exactly for an empty list. |
| ListView.PagesPrefix | src/stores/PiniaBerry.ts:42-50 | Pages `1..k` laid end to end are the prefix of the list of length `k*itemsPerPage`, clamped to the list's length. |
| ListView.PagesCoverAll | src/stores/PiniaBerry.ts:42-50 | Pages `1..PageCount` laid end to end are the whole list. |
| ListView.PageNonEmptyIff | src/stores/PiniaBerry.ts:42-50 | A page is non-empty exactly when its number is at most the page count. |
| BerryStore.InitialState | src/stores/PiniaBerry.ts:17-26 | The store starts on page 1 with 10 per page, no query, no records, an empty cache and no selection. Every derived view is empty and the page count is 0. |
| BerryStore.FilteredBerries | src/stores/PiniaBerry.ts:29-34 | `filteredBerries` equals the search of the list for the query. With an empty query it is the list itself. |
| BerryStore.SortedBerries | src/stores/PiniaBerry.ts:36-40 | `sortedBerries` is the filtered list, sorted by name, as a permutation of equal length. Records with equal names stay in filtered order. |
| BerryStore.PaginatedBerries | src/stores/PiniaBerry.ts:42-46 | `paginatedBerries` holds the sorted records from offset `(currentPage-1)*itemsPerPage`. Its length is exactly the number of sorted records between that offset and the offset plus `itemsPerPage`, both clamped to the list's length. The page is empty exactly when the offset is at or past the end of the filtered list. |
| BerryStore.PaginatedIsSlice | src/stores/PiniaBerry.ts:42-46 | `paginatedBerries` equals `sortedBerries[min(start, n) .. min(start + itemsPerPage, n)]`, where `start = (currentPage-1)*itemsPerPage` and `n` is the sorted length. |
| BerryStore.TotalPages | src/stores/PiniaBerry.ts:48-50 | `totalPages` is the ceiling of the filtered length divided by `itemsPerPage`. It is 0 exactly when nothing matches. |
| BerryStore.PagesPartitionSorted | src/stores/PiniaBerry.ts:42-50 | Pages `1..totalPages` laid end to end are exactly `sortedBerries`. |
| BerryStore.PaginatedNonEmptyIff | src/stores/PiniaBerry.ts:42-50 | The current page shows records exactly when `currentPage <= totalPages`. |
| BerryStore.SetPage | src/stores/PiniaBerry.ts:85-87 | `setPage` sets `currentPage` to the given number and changes no other field. |
| BerryStore.SetItemsPerPage | src/stores/PiniaBerry.ts:89-92 | `setItemsPerPage` sets the page size, resets `currentPage` to 1, and changes no other field. |
| BerryStore.SetSearchQuery | src/stores/PiniaBerry.ts:94-97 | `setSearchQuery` sets the query, resets `currentPage` to 1, and changes no other field. |
| BerryStore.DeleteBerry | src/stores/PiniaBerry.ts:99-104 | After `deleteBerry`, no record has that name. The list shrinks by exactly the number of records that had it. The name leaves the cache and every other cache entry is kept. No other field changes. |
| BerryStore.FetchBerryDetailsCached | src/stores/PiniaBerry.ts:67-71 | A cached name is a hit that selects the cached details and changes nothing else. Any other name needs the network. |
| BerryStore.MutatorsKeepViewReady | src/stores/PiniaBerry.ts:85-104 | Every mutator keeps `currentPage >= 1` and `itemsPerPage >= 1` when its argument respects them. |
| BerryStore.SetPageShowsPage | src/stores/PiniaBerry.ts:85-87 | Changing page keeps the sorted list and the page count. It shows that page, and there is no clamping: a page past the last one is empty. |
| BerryStore.SetItemsPerPageShowsFirstPage | src/stores/PiniaBerry.ts:89-92 | After a new page size, the same sorted list is shown from its first record, with up to that many records. |
| BerryStore.SetSearchQueryShowsFirstPage | src/stores/PiniaBerry.ts:94-97 | After a new query, the search results for it are sorted and shown from their first record. |
| BerryStore.DeleteBerryCount | src/stores/PiniaBerry.ts:100 | Deletion keeps every record with another name exactly as often as before, and leaves none with that name. |
| BerryStore.DeleteBerryKeepsOrder | src/stores/PiniaBerry.ts:100 | Deletion keeps the remaining records in their order. |
| BerryStore.DeleteBerryIdempotent | src/stores/PiniaBerry.ts:99-104 | Deleting the same name twice has the same effect as deleting it once. |
| BerryStore.DeleteAbsentBerry | src/stores/PiniaBerry.ts:99-104 | Deleting a name that is neither listed nor cached changes nothing. |
| BerryStore.DeleteThenFilter | src/stores/PiniaBerry.ts:99-104 | After a delete, the filtered list is the old filtered list without that name. |
| BerryStore.DeleteThenFetchNeedsNetwork | src/stores/PiniaBerry.ts:99-104 | A deleted name is no longer served from the details cache. |
| BerryScenarios.CapitalisedChestoMatches | src/stores/PiniaBerry.ts:31-33 | "Chesto" matches the query "CHES". |
| BerryScenarios.LowerChestoMatches | src/stores/PiniaBerry.ts:31-33 | "chesto" matches the query "CHES". |
| BerryScenarios.TwoPerPage | src/stores/PiniaBerry.ts:42-46 | With cheri, chesto and pecha, no query and two per page, the first page is cheri, chesto. |
| BerryScenarios.TwoPerPageCount | src/stores/PiniaBerry.ts:48-50 | With the same three berries and two per page, there are two pages. |
| BerryScenarios.SearchPe | src/stores/PiniaBerry.ts:29-50 | With the query "pe", only pecha is selected, on one page. |
| BerryScenarios.DeleteChesto | src/stores/PiniaBerry.ts:99-104 | Deleting chesto and showing ten per page shows cheri, pecha. |
| BerryScenarios.OutOfOrderFetch | src/stores/PiniaBerry.ts:36-40 | A list fetched as pecha, chesto, cheri is shown as cheri, chesto, pecha. |

## Left out

- Network paths: the request in `fetchBerries` and the network branch of `fetchBerryDetails`, with the `loading` flag set around them. These are HTTP requests to a third-party API. `BerryStore.FetchBerryDetailsCached` returns `NeedsFetch` where the source would start a request. The `loading` field is in the state, but no modelled operation changes it.
- Error handling around those requests (catch and log): it only applies to the network paths.
- JsStrings.ToLower: maps only the ASCII letters A-Z to lower case, because full Unicode case mapping is foreign library behaviour. The real mapping can change a string's length: `"İ"` lower-cases to two code units. So the length bounds in `ToLower` and `MatchesQuery` belong to this ASCII model. `SearchCaseInsensitive`, `SearchCount`, `SearchKeepsOrder` and the sort and paging properties do not depend on how case is mapped.
- Strings: a Dafny `string` is a sequence of Unicode scalar values, while a JavaScript string is a sequence of UTF-16 code units. For well-formed strings this does not change the result of `includes`, but it does change lengths and indices.
- JsStrings.Compare: plain lexicographic order on characters stands in for the locale-aware collation of `localeCompare`. The sort properties need only a total order in which equal comparison means equal names.
- Getters with `currentPage < 1` or `itemsPerPage < 1`: `PaginatedBerries` requires both to be at least 1, and `TotalPages` requires `itemsPerPage >= 1`. The store never validates these values. Out of that range, JavaScript's `slice` counts negative offsets from the end. `totalPages` is then `Infinity` for a zero page size with matching records, `NaN` for a zero page size with none, and zero or negative for a negative page size.
- `currentPage` and `itemsPerPage` are JavaScript numbers, modelled as Dafny integers. A fractional value is truncated by `slice` and changes the result of `Math.ceil`, and the model does not cover it.
- BerryStore.TotalPages: computes an exact integer ceiling. The source divides in floating point and rounds up, which agrees for every list length a browser can hold.
- `totalBerries`: it is copied from the list response and never used by any getter. It is kept as a field but not otherwise modelled.
- The details cache never evicts anything. The model keeps it as a map that only `deleteBerry` shrinks, as in the source.
- The product store, the translation tables and their setup, the route table, and the type declarations beyond the list entry shape: they hold no view-state logic.

