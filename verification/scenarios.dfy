/**
  Concrete scenarios of the berry store on a three-berry list: the
  behaviour the list view is meant to show, proved for that list.
 */
module BerryScenarios {
  import opened BerryTypes
  import opened JsStrings
  import opened ListView
  import opened BerryStore

  const Cheri := NamedRef("cheri", "https://pokeapi.co/api/v2/berry/1/")
  const Chesto := NamedRef("chesto", "https://pokeapi.co/api/v2/berry/2/")
  const Pecha := NamedRef("pecha", "https://pokeapi.co/api/v2/berry/3/")

  /** The store after a fetch of the three berries. */
  function Fetched(): (s: State)
    ensures ViewReady(s) && s.berries == [Cheri, Chesto, Pecha] && s.searchQuery == ""
  {
    State([Cheri, Chesto, Pecha], 3, 1, 10, "", false, map[], None)
  }

  /** A capitalised name matches an upper-case query. */
  lemma CapitalisedChestoMatches()
    ensures MatchesQuery("CHES", NamedRef("Chesto", ""))
  {
    assert ToLower("CHES") == "ches";
    assert ToLower("Chesto") == "chesto";
    assert StartsWith("chesto", "ches");
  }

  /** A lower-case name matches an upper-case query. */
  lemma LowerChestoMatches()
    ensures MatchesQuery("CHES", NamedRef("chesto", ""))
  {
    assert ToLower("CHES") == "ches";
    assert ToLower("chesto") == "chesto";
    assert StartsWith("chesto", "ches");
  }

  /** The three names are in alphabetical order as fetched. */
  lemma FetchedInOrder()
    ensures SortedByName([Cheri, Chesto, Pecha])
  {
    assert Compare("cheri", "chesto") == -1;
    assert Compare("chesto", "pecha") == -1;
    assert Compare("cheri", "pecha") == -1;
  }

  /** With no query the fetched list is shown in the order it came in. */
  lemma FetchedSorted(s: State)
    requires s.berries == [Cheri, Chesto, Pecha] && s.searchQuery == ""
    ensures SortedBerries(s) == [Cheri, Chesto, Pecha]
  {
    FetchedInOrder();
    SortSortedIsIdentity(s.berries);
  }

  /** A new page size shows the first records of the sorted list. */
  lemma FirstPageAfterResize(s: State, items: int, sorted: seq<NamedRef>)
    requires items >= 1 && SortedBerries(s) == sorted
    ensures PaginatedBerries(SetItemsPerPage(s, items)) == sorted[..Min(items, |sorted|)]
  {
    SetItemsPerPageShowsFirstPage(s, items);
  }

  /** Two per page, no query: the first page holds the first two names in
      alphabetical order. */
  lemma TwoPerPage(s: State)
    requires s.berries == [Cheri, Chesto, Pecha] && s.searchQuery == ""
    ensures PaginatedBerries(SetItemsPerPage(s, 2)) == [Cheri, Chesto]
  {
    FetchedSorted(s);
    FirstTwoOfSorted(s, [Cheri, Chesto, Pecha]);
  }

  /** Two per page shows the first two records of the sorted list. */
  lemma FirstTwoOfSorted(s: State, sorted: seq<NamedRef>)
    requires SortedBerries(s) == sorted && |sorted| >= 2
    ensures PaginatedBerries(SetItemsPerPage(s, 2)) == [sorted[0], sorted[1]]
  {
    FirstPageAfterResize(s, 2, sorted);
    assert sorted[..2] == [sorted[0], sorted[1]];
  }

  /** Two per page, no query: three berries make two pages. */
  lemma TwoPerPageCount(s: State)
    requires s.berries == [Cheri, Chesto, Pecha] && s.searchQuery == ""
    ensures TotalPages(SetItemsPerPage(s, 2)) == 2
  {
    assert PageCount(3, 2) == 2;
  }

  /** A name without the letter 'p' never matches "pe". */
  lemma NoPNoMatch(r: NamedRef)
    requires 'p' !in ToLower(r.name)
    ensures !MatchesQuery("pe", r)
  {
    assert ToLower("pe") == "pe";
    if MatchesQuery("pe", r) {
      IncludesFirstChar(ToLower(r.name), "pe");
    }
  }

  lemma PechaMatchesPe()
    ensures MatchesQuery("pe", Pecha)
  {
    assert ToLower("pe") == "pe";
    assert ToLower("pecha") == "pecha";
    assert StartsWith("pecha", "pe");
  }

  lemma CheriMissesPe()
    ensures !MatchesQuery("pe", Cheri)
  {
    assert ToLower("cheri") == "cheri";
    NoPNoMatch(Cheri);
  }

  lemma ChestoMissesPe()
    ensures !MatchesQuery("pe", Chesto)
  {
    assert ToLower("chesto") == "chesto";
    NoPNoMatch(Chesto);
  }

  /** Searching "pe" keeps only pecha, on a single page. */
  lemma SearchPe()
    ensures FilteredBerries(SetSearchQuery(Fetched(), "pe")) == [Pecha]
    ensures TotalPages(SetSearchQuery(Fetched(), "pe")) == 1
    ensures PaginatedBerries(SetSearchQuery(Fetched(), "pe")) == [Pecha]
  {
    CheriMissesPe();
    ChestoMissesPe();
    PechaMatchesPe();
    var f := r => MatchesQuery("pe", r);
    var xs := [Cheri, Chesto, Pecha];
    KeepCons(Pecha, [], f);
    KeepCons(Chesto, [Pecha], f);
    KeepCons(Cheri, [Chesto, Pecha], f);
    assert Search(xs, "pe") == [Pecha];
    assert SortByName([Pecha]) == [Pecha];
  }

  /** Deleting chesto from the fetched list leaves cheri and pecha. */
  lemma DeleteChestoBerries()
    ensures DeleteBerry(Fetched(), "chesto").berries == [Cheri, Pecha]
  {
    var f := LacksName("chesto");
    KeepCons(Pecha, [], f);
    KeepCons(Chesto, [Pecha], f);
    KeepCons(Cheri, [Chesto, Pecha], f);
    assert [Cheri] + ([Chesto] + [Pecha]) == [Cheri, Chesto, Pecha];
  }

  /** Deleting chesto and showing ten per page leaves cheri and pecha. */
  lemma DeleteChesto()
    ensures PaginatedBerries(SetItemsPerPage(DeleteBerry(Fetched(), "chesto"), 10)) == [Cheri, Pecha]
  {
    var s := SetItemsPerPage(DeleteBerry(Fetched(), "chesto"), 10);
    DeleteChestoBerries();
    assert FilteredBerries(s) == [Cheri, Pecha];
    assert Compare("cheri", "pecha") == -1;
    SortSortedIsIdentity([Cheri, Pecha]);
  }

  lemma ChestoAfterCheri()
    ensures SortByName([Chesto, Cheri]) == [Cheri, Chesto]
  {
    assert Compare("chesto", "cheri") == 1;
    assert SortByName([Cheri]) == [Cheri];
    assert [Chesto, Cheri][1..] == [Cheri];
    assert Insert(Chesto, [Cheri]) == [Cheri, Chesto];
  }

  lemma PechaLast()
    ensures Insert(Pecha, [Cheri, Chesto]) == [Cheri, Chesto, Pecha]
  {
    assert Compare("pecha", "cheri") == 1;
    assert Compare("pecha", "chesto") == 1;
    assert [Cheri, Chesto][1..] == [Chesto];
    assert Insert(Pecha, [Chesto]) == [Chesto, Pecha];
  }

  /** A list fetched out of order is shown in alphabetical order. */
  lemma OutOfOrderFetch()
    ensures SortedBerries(Fetched().(berries := [Pecha, Chesto, Cheri])) == [Cheri, Chesto, Pecha]
  {
    var xs := [Pecha, Chesto, Cheri];
    ChestoAfterCheri();
    PechaLast();
    assert xs[1..] == [Chesto, Cheri];
    assert SortByName(xs) == Insert(Pecha, SortByName(xs[1..]));
  }
}
