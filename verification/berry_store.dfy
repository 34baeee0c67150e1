/**
  The berry store: the fetched list of berries, the view parameters that
  choose what the user sees (search query, page number, page size), and the
  name-keyed cache of detailed records.

  The getters are pure functions of the state; every mutator returns the
  next state.
 */
module BerryStore {
  import opened BerryTypes
  import opened ListView

  datatype State = State(
    berries: seq<NamedRef>,
    totalBerries: int,
    currentPage: int,
    itemsPerPage: int,
    searchQuery: string,
    loading: bool,
    berryDetails: map<string, Berry>,
    selectedBerry: Option<Berry>
  )

  /** The page getters number pages from 1 and divide by the page size; the
      store itself never checks either value. */
  predicate ViewReady(s: State)
  {
    s.currentPage >= 1 && s.itemsPerPage >= 1
  }

  /** The state the store starts in: nothing fetched, first page of ten. */
  function InitialState(): (s: State)
    ensures ViewReady(s)
    ensures s.currentPage == 1 && s.itemsPerPage == 10 && s.searchQuery == ""
    ensures FilteredBerries(s) == [] && SortedBerries(s) == []
    ensures PaginatedBerries(s) == [] && TotalPages(s) == 0
    ensures s.berryDetails == map[] && s.selectedBerry == None && !s.loading
  {
    State([], 0, 1, 10, "", false, map[], None)
  }

  // ---------------------------------------------------------------------
  // Getters
  // ---------------------------------------------------------------------

  /** `filteredBerries`: an empty query short-cuts to the whole list, which
      is exactly what the search would have selected anyway. */
  function FilteredBerries(s: State): (r: seq<NamedRef>)
    ensures r == Search(s.berries, s.searchQuery)
    ensures s.searchQuery == "" ==> r == s.berries
  {
    if s.searchQuery == "" then
      SearchEmptyQuery(s.berries);
      s.berries
    else
      Search(s.berries, s.searchQuery)
  }

  /** `sortedBerries`: a sorted, stable rearrangement of the filtered list. */
  function SortedBerries(s: State): (r: seq<NamedRef>)
    ensures SortedByName(r)
    ensures multiset(r) == multiset(FilteredBerries(s))
    ensures StableFor(r, FilteredBerries(s))
    ensures |r| == |FilteredBerries(s)|
  {
    SortByName(FilteredBerries(s))
  }

  /** `paginatedBerries`: the current page of the sorted list. */
  function PaginatedBerries(s: State): (r: seq<NamedRef>)
    requires ViewReady(s)
    ensures |r| <= s.itemsPerPage
    ensures r == [] || PageStart(s.currentPage, s.itemsPerPage) + |r| <= |SortedBerries(s)|
    ensures forall i :: 0 <= i < |r| ==>
              r[i] == SortedBerries(s)[PageStart(s.currentPage, s.itemsPerPage) + i]
    ensures r == [] <==> PageStart(s.currentPage, s.itemsPerPage) >= |FilteredBerries(s)|
    ensures |r| == Min(PageStart(s.currentPage, s.itemsPerPage) + s.itemsPerPage, |SortedBerries(s)|)
                 - Min(PageStart(s.currentPage, s.itemsPerPage), |SortedBerries(s)|)
  {
    Page(SortedBerries(s), s.currentPage, s.itemsPerPage)
  }

  /** The current page is exactly the slice of the sorted list from the
      page's first offset to its last, both clamped to the list's length. */
  lemma PaginatedIsSlice(s: State)
    requires ViewReady(s)
    ensures PaginatedBerries(s)
         == SortedBerries(s)[Min(PageStart(s.currentPage, s.itemsPerPage), |SortedBerries(s)|)
                             ..Min(PageStart(s.currentPage, s.itemsPerPage) + s.itemsPerPage, |SortedBerries(s)|)]
  {
  }

  /** `totalPages`: the fewest pages of `itemsPerPage` that hold the filtered list. */
  function TotalPages(s: State): (n: nat)
    requires s.itemsPerPage >= 1
    ensures n * s.itemsPerPage >= |FilteredBerries(s)|
    ensures n > 0 ==> (n - 1) * s.itemsPerPage < |FilteredBerries(s)|
    ensures n == 0 <==> FilteredBerries(s) == []
  {
    PageCount(|FilteredBerries(s)|, s.itemsPerPage)
  }

  /** Pages `1..TotalPages` laid end to end are exactly the sorted list. */
  lemma PagesPartitionSorted(s: State)
    requires s.itemsPerPage >= 1
    ensures Pages(SortedBerries(s), TotalPages(s), s.itemsPerPage) == SortedBerries(s)
  {
    PagesCoverAll(SortedBerries(s), s.itemsPerPage);
  }

  /** The current page shows something exactly when it is one of the
      `TotalPages` pages. */
  lemma PaginatedNonEmptyIff(s: State)
    requires ViewReady(s)
    ensures PaginatedBerries(s) != [] <==> s.currentPage <= TotalPages(s)
  {
    PageNonEmptyIff(SortedBerries(s), s.currentPage, s.itemsPerPage);
  }

  // ---------------------------------------------------------------------
  // Mutators
  // ---------------------------------------------------------------------

  /** `setPage`: no clamping against the page count. */
  function SetPage(s: State, page: int): (r: State)
    ensures r.currentPage == page
    ensures r.(currentPage := s.currentPage) == s
  {
    s.(currentPage := page)
  }

  /** `setItemsPerPage`: a new page size starts again from the first page. */
  function SetItemsPerPage(s: State, items: int): (r: State)
    ensures r.itemsPerPage == items && r.currentPage == 1
    ensures r.(itemsPerPage := s.itemsPerPage, currentPage := s.currentPage) == s
  {
    s.(itemsPerPage := items, currentPage := 1)
  }

  /** `setSearchQuery`: a new query starts again from the first page. */
  function SetSearchQuery(s: State, query: string): (r: State)
    ensures r.searchQuery == query && r.currentPage == 1
    ensures r.(searchQuery := s.searchQuery, currentPage := s.currentPage) == s
  {
    s.(searchQuery := query, currentPage := 1)
  }

  /** `deleteBerry`: drops every record with that name and its cached details. */
  function DeleteBerry(s: State, name: string): (r: State)
    ensures forall i :: 0 <= i < |r.berries| ==> r.berries[i].name != name
    ensures |r.berries| == |s.berries| - |WithName(s.berries, name)|
    ensures r.berryDetails.Keys == s.berryDetails.Keys - {name}
    ensures forall k :: k in r.berryDetails ==> r.berryDetails[k] == s.berryDetails[k]
    ensures r.(berries := s.berries, berryDetails := s.berryDetails) == s
  {
    var kept := Keep(s.berries, LacksName(name));
    KeepSplitLength(s.berries, name);
    var details := if name in s.berryDetails then s.berryDetails - {name} else s.berryDetails;
    s.(berries := kept, berryDetails := details)
  }

  /** Records with and without a given name split the list between them. */
  lemma {:induction false} KeepSplitLength(xs: seq<NamedRef>, name: string)
    ensures |Keep(xs, LacksName(name))| + |WithName(xs, name)| == |xs|
    decreases |xs|
  {
    if |xs| > 0 {
      KeepSplitLength(xs[1..], name);
      WithNameUnfold(xs, name);
    }
  }

  /** The result of looking a name up in the details cache. */
  datatype DetailsLookup = CacheHit(next: State) | NeedsFetch

  /** The cache-hit path of `fetchBerryDetails`: a cached name selects its
      details without touching anything else; any other name needs the
      network. */
  function FetchBerryDetailsCached(s: State, name: string): (r: DetailsLookup)
    ensures r.CacheHit? <==> name in s.berryDetails
    ensures r.CacheHit? ==> r.next.selectedBerry == Some(s.berryDetails[name])
    ensures r.CacheHit? ==> r.next.(selectedBerry := s.selectedBerry) == s
  {
    if name in s.berryDetails then CacheHit(s.(selectedBerry := Some(s.berryDetails[name])))
    else NeedsFetch
  }

  // ---------------------------------------------------------------------
  // Properties relating the mutators and the getters
  // ---------------------------------------------------------------------

  /** Every mutator keeps the getters usable, given a usable argument. */
  lemma MutatorsKeepViewReady(s: State, page: int, items: int, query: string, name: string)
    requires ViewReady(s)
    ensures page >= 1 ==> ViewReady(SetPage(s, page))
    ensures items >= 1 ==> ViewReady(SetItemsPerPage(s, items))
    ensures ViewReady(SetSearchQuery(s, query))
    ensures ViewReady(DeleteBerry(s, name))
  {
  }

  /** Changing the page leaves the result list and the page count alone and
      shows that page of it, empty past the last page. */
  lemma SetPageShowsPage(s: State, page: int)
    requires s.itemsPerPage >= 1 && page >= 1
    ensures SortedBerries(SetPage(s, page)) == SortedBerries(s)
    ensures TotalPages(SetPage(s, page)) == TotalPages(s)
    ensures PaginatedBerries(SetPage(s, page)) == Page(SortedBerries(s), page, s.itemsPerPage)
    ensures page > TotalPages(s) ==> PaginatedBerries(SetPage(s, page)) == []
  {
    PaginatedNonEmptyIff(SetPage(s, page));
  }

  /** After a new page size the same results are shown from their first record. */
  lemma SetItemsPerPageShowsFirstPage(s: State, items: int)
    requires items >= 1
    ensures SortedBerries(SetItemsPerPage(s, items)) == SortedBerries(s)
    ensures PaginatedBerries(SetItemsPerPage(s, items))
         == SortedBerries(s)[..Min(items, |SortedBerries(s)|)]
  {
    var r := SetItemsPerPage(s, items);
    var p := PaginatedBerries(r);
    var sorted := SortedBerries(s);
    assert |p| == Min(items, |sorted|);
    assert forall i :: 0 <= i < |p| ==> p[i] == sorted[i];
  }

  /** After a new query the search results for it are shown from their first record. */
  lemma SetSearchQueryShowsFirstPage(s: State, query: string)
    requires s.itemsPerPage >= 1
    ensures FilteredBerries(SetSearchQuery(s, query)) == Search(s.berries, query)
    ensures PaginatedBerries(SetSearchQuery(s, query))
         == SortByName(Search(s.berries, query))[..Min(s.itemsPerPage, |Search(s.berries, query)|)]
  {
    var r := SetSearchQuery(s, query);
    var p := PaginatedBerries(r);
    var sorted := SortedBerries(r);
    assert |p| == Min(s.itemsPerPage, |sorted|);
    assert forall i :: 0 <= i < |p| ==> p[i] == sorted[i];
  }

  /** Deleting a name keeps every other record exactly as often as before and
      removes every record with that name. */
  lemma DeleteBerryCount(s: State, name: string, x: NamedRef)
    ensures multiset(DeleteBerry(s, name).berries)[x]
         == if x.name == name then 0 else multiset(s.berries)[x]
  {
    KeepCount(s.berries, LacksName(name), x);
  }

  /** Deletion keeps the remaining records in their order. */
  lemma DeleteBerryKeepsOrder(a: seq<NamedRef>, b: seq<NamedRef>, s: State, name: string)
    requires s.berries == a + b
    ensures DeleteBerry(s, name).berries
         == DeleteBerry(s.(berries := a), name).berries + DeleteBerry(s.(berries := b), name).berries
  {
    KeepConcat(a, b, LacksName(name));
  }

  /** Deleting the same name twice is deleting it once. */
  lemma DeleteBerryIdempotent(s: State, name: string)
    ensures DeleteBerry(DeleteBerry(s, name), name) == DeleteBerry(s, name)
  {
    KeepIdempotent(s.berries, LacksName(name));
  }

  /** Deleting a name that is neither listed nor cached changes nothing. */
  lemma DeleteAbsentBerry(s: State, name: string)
    requires forall i :: 0 <= i < |s.berries| ==> s.berries[i].name != name
    requires name !in s.berryDetails
    ensures DeleteBerry(s, name) == s
  {
    KeepAll(s.berries, LacksName(name));
  }

  /** Deleting and then searching gives the search results without that name. */
  lemma DeleteThenFilter(s: State, name: string)
    ensures FilteredBerries(DeleteBerry(s, name)) == Keep(FilteredBerries(s), LacksName(name))
  {
    KeepCommutes(s.berries, LacksName(name), r => MatchesQuery(s.searchQuery, r));
  }

  /** A deleted name is no longer served from the cache. */
  lemma DeleteThenFetchNeedsNetwork(s: State, name: string)
    ensures FetchBerryDetailsCached(DeleteBerry(s, name), name) == NeedsFetch
  {
  }
}
