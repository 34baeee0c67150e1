/**
  The list-view derivations, independent of the store's state: filtering a
  sequence, sorting it by name, cutting it into pages and counting pages.
 */
module ListView {
  import opened BerryTypes
  import opened JsStrings

  // ---------------------------------------------------------------------
  // Filtering
  // ---------------------------------------------------------------------

  /** `xs.filter(keep)`: the records satisfying `keep`, in their order. */
  function Keep(xs: seq<NamedRef>, keep: NamedRef -> bool): (ys: seq<NamedRef>)
    ensures |ys| <= |xs|
    ensures forall i :: 0 <= i < |ys| ==> keep(ys[i])
  {
    if |xs| == 0 then []
    else
      var rest := Keep(xs[1..], keep);
      if keep(xs[0]) then [xs[0]] + rest else rest
  }

  /** Each record occurs in the filtered sequence exactly as often as in the
      input when it satisfies `keep`, and not at all otherwise. */
  lemma {:induction false} KeepCount(xs: seq<NamedRef>, keep: NamedRef -> bool, x: NamedRef)
    ensures multiset(Keep(xs, keep))[x] == if keep(x) then multiset(xs)[x] else 0
    decreases |xs|
  {
    if |xs| > 0 {
      KeepCount(xs[1..], keep, x);
      assert xs == [xs[0]] + xs[1..];
    }
  }

  /** A record is kept exactly when it occurs in the input and satisfies `keep`. */
  lemma KeepMember(xs: seq<NamedRef>, keep: NamedRef -> bool, x: NamedRef)
    ensures x in Keep(xs, keep) <==> x in xs && keep(x)
  {
    KeepCount(xs, keep, x);
  }

  /** Filtering a sequence that starts with `x` decides `x` first. */
  lemma KeepCons(x: NamedRef, xs: seq<NamedRef>, keep: NamedRef -> bool)
    ensures Keep([x] + xs, keep) == (if keep(x) then [x] else []) + Keep(xs, keep)
  {
    assert ([x] + xs)[1..] == xs;
  }

  /** Filtering distributes over concatenation: it never reorders. */
  lemma {:induction false} KeepConcat(a: seq<NamedRef>, b: seq<NamedRef>, keep: NamedRef -> bool)
    ensures Keep(a + b, keep) == Keep(a, keep) + Keep(b, keep)
    decreases |a|
  {
    if |a| == 0 {
      assert a + b == b;
    } else {
      assert (a + b)[0] == a[0];
      assert (a + b)[1..] == a[1..] + b;
      KeepConcat(a[1..], b, keep);
    }
  }

  /** Filters that agree on every record of `xs` select the same records. */
  lemma {:induction false} KeepCongruent(xs: seq<NamedRef>, f: NamedRef -> bool, g: NamedRef -> bool)
    requires forall i :: 0 <= i < |xs| ==> f(xs[i]) == g(xs[i])
    ensures Keep(xs, f) == Keep(xs, g)
    decreases |xs|
  {
    if |xs| > 0 {
      KeepCongruent(xs[1..], f, g);
    }
  }

  /** A filter that keeps everything returns its input unchanged. */
  lemma {:induction false} KeepAll(xs: seq<NamedRef>, keep: NamedRef -> bool)
    requires forall i :: 0 <= i < |xs| ==> keep(xs[i])
    ensures Keep(xs, keep) == xs
    decreases |xs|
  {
    if |xs| > 0 {
      KeepAll(xs[1..], keep);
    }
  }

  /** Two filters applied one after the other commute. */
  lemma {:induction false} KeepCommutes(xs: seq<NamedRef>, f: NamedRef -> bool, g: NamedRef -> bool)
    ensures Keep(Keep(xs, f), g) == Keep(Keep(xs, g), f)
    decreases |xs|
  {
    if |xs| > 0 {
      var x := xs[0];
      KeepCommutes(xs[1..], f, g);
      var ff := if f(x) then [x] else [];
      var gg := if g(x) then [x] else [];
      assert Keep(xs, f) == ff + Keep(xs[1..], f);
      assert Keep(xs, g) == gg + Keep(xs[1..], g);
      KeepConcat(ff, Keep(xs[1..], f), g);
      KeepConcat(gg, Keep(xs[1..], g), f);
    }
  }

  /** Filtering twice with the same predicate is filtering once. */
  lemma {:induction false} KeepIdempotent(xs: seq<NamedRef>, keep: NamedRef -> bool)
    ensures Keep(Keep(xs, keep), keep) == Keep(xs, keep)
  {
    KeepAll(Keep(xs, keep), keep);
  }

  /** The search predicate: the lower-cased name includes the lower-cased query. */
  predicate MatchesQuery(query: string, r: NamedRef)
    ensures MatchesQuery(query, r) ==> |query| <= |r.name|
  {
    Includes(ToLower(r.name), ToLower(query))
  }

  /** `berries.filter(b => b.name.toLowerCase().includes(query.toLowerCase()))`. */
  function Search(xs: seq<NamedRef>, query: string): (ys: seq<NamedRef>)
    ensures forall i :: 0 <= i < |ys| ==> MatchesQuery(query, ys[i])
  {
    Keep(xs, r => MatchesQuery(query, r))
  }

  /** Search selects each matching record as often as it occurs, and no other record. */
  lemma SearchCount(xs: seq<NamedRef>, query: string, r: NamedRef)
    ensures multiset(Search(xs, query))[r]
         == if MatchesQuery(query, r) then multiset(xs)[r] else 0
  {
    KeepCount(xs, r => MatchesQuery(query, r), r);
  }

  /** Search keeps the source order: searching a concatenation searches each part. */
  lemma SearchKeepsOrder(a: seq<NamedRef>, b: seq<NamedRef>, query: string)
    ensures Search(a + b, query) == Search(a, query) + Search(b, query)
  {
    KeepConcat(a, b, r => MatchesQuery(query, r));
  }

  /** Search only looks at the lower-cased query: two queries that
      lower-case alike select the same records. */
  lemma SearchCaseInsensitive(xs: seq<NamedRef>, q1: string, q2: string)
    requires ToLower(q1) == ToLower(q2)
    ensures Search(xs, q1) == Search(xs, q2)
  {
    KeepCongruent(xs, r => MatchesQuery(q1, r), r => MatchesQuery(q2, r));
  }

  /** Changing the case of the query's ASCII letters does not change what
      the search selects. */
  lemma SearchIgnoresQueryCase(xs: seq<NamedRef>, q1: string, q2: string)
    requires SameUpToCase(q1, q2)
    ensures Search(xs, q1) == Search(xs, q2)
  {
    ToLowerIgnoresCase(q1, q2);
    SearchCaseInsensitive(xs, q1, q2);
  }

  /** Changing the case of a name's ASCII letters does not change whether
      it matches a query. */
  lemma MatchIgnoresNameCase(query: string, r1: NamedRef, r2: NamedRef)
    requires SameUpToCase(r1.name, r2.name)
    ensures MatchesQuery(query, r1) <==> MatchesQuery(query, r2)
  {
    ToLowerIgnoresCase(r1.name, r2.name);
  }

  /** The empty query selects every record, in its original order. */
  lemma SearchEmptyQuery(xs: seq<NamedRef>)
    ensures Search(xs, "") == xs
  {
    forall i | 0 <= i < |xs|
      ensures MatchesQuery("", xs[i])
    {
      IncludesEmpty(ToLower(xs[i].name));
    }
    KeepAll(xs, r => MatchesQuery("", r));
  }

  /** The predicate "has exactly this name". */
  function HasName(name: string): NamedRef -> bool
  {
    (r: NamedRef) => r.name == name
  }

  /** The predicate "has any other name", used by deletion. */
  function LacksName(name: string): NamedRef -> bool
  {
    (r: NamedRef) => r.name != name
  }

  /** The records of `xs` named `name`, in their order. */
  function WithName(xs: seq<NamedRef>, name: string): seq<NamedRef>
  {
    Keep(xs, HasName(name))
  }

  /** A record occurs in the per-name order of `name` exactly when it occurs
      in the sequence and carries that name. */
  lemma WithNameMember(xs: seq<NamedRef>, name: string, r: NamedRef)
    ensures r in WithName(xs, name) <==> r in xs && r.name == name
  {
    KeepMember(xs, HasName(name), r);
    assert HasName(name)(r) <==> r.name == name;
  }

  /** The head of a non-empty sequence occurs in the per-name order of its name. */
  lemma HeadHasName(xs: seq<NamedRef>)
    requires |xs| > 0
    ensures xs[0] in WithName(xs, xs[0].name)
  {
    WithNameMember(xs, xs[0].name, xs[0]);
  }

  /** The per-name order of a non-empty sequence decides its head first. */
  lemma WithNameUnfold(xs: seq<NamedRef>, name: string)
    requires |xs| > 0
    ensures WithName(xs, name)
         == (if xs[0].name == name then [xs[0]] else []) + WithName(xs[1..], name)
  {
  }

  // ---------------------------------------------------------------------
  // Sorting by name
  // ---------------------------------------------------------------------

  /** Ascending by name under `Compare`. */
  ghost predicate SortedByName(xs: seq<NamedRef>)
  {
    forall i, j :: 0 <= i < j < |xs| ==> Compare(xs[i].name, xs[j].name) <= 0
  }

  /** Records with equal names appear in the same relative order in `ys` as in `xs`. */
  ghost predicate StableFor(ys: seq<NamedRef>, xs: seq<NamedRef>)
  {
    forall name :: WithName(ys, name) == WithName(xs, name)
  }

  /** The first record of a sorted sequence sorts no later than any of its records. */
  lemma SortedHeadFirst(xs: seq<NamedRef>, r: NamedRef)
    requires SortedByName(xs) && r in xs
    ensures Compare(xs[0].name, r.name) <= 0
  {
    var j :| 0 <= j < |xs| && xs[j] == r;
    if j == 0 {
      assert Compare(r.name, r.name) == 0;
    }
  }

  /** Inserts `x` in front of the first record that does not sort before it. */
  function Insert(x: NamedRef, ys: seq<NamedRef>): (zs: seq<NamedRef>)
    requires SortedByName(ys)
    ensures SortedByName(zs)
    ensures multiset(zs) == multiset(ys) + multiset{x}
    ensures |zs| == |ys| + 1
    decreases |ys|
  {
    if |ys| == 0 || Compare(x.name, ys[0].name) <= 0 then
      InsertFrontSorted(x, ys);
      [x] + ys
    else
      var rest := Insert(x, ys[1..]);
      InsertBehindSorted(x, ys, rest);
      assert ys == [ys[0]] + ys[1..];
      [ys[0]] + rest
  }

  lemma InsertFrontSorted(x: NamedRef, ys: seq<NamedRef>)
    requires SortedByName(ys)
    requires |ys| == 0 || Compare(x.name, ys[0].name) <= 0
    ensures SortedByName([x] + ys)
  {
    var zs := [x] + ys;
    forall i, j | 0 <= i < j < |zs|
      ensures Compare(zs[i].name, zs[j].name) <= 0
    {
      if i == 0 && j > 1 {
        CompareTransitive(x.name, ys[0].name, ys[j - 1].name);
      }
    }
  }

  lemma InsertBehindSorted(x: NamedRef, ys: seq<NamedRef>, rest: seq<NamedRef>)
    requires SortedByName(ys) && |ys| > 0
    requires Compare(x.name, ys[0].name) > 0
    requires SortedByName(rest)
    requires multiset(rest) == multiset(ys[1..]) + multiset{x}
    ensures SortedByName([ys[0]] + rest)
  {
    var zs := [ys[0]] + rest;
    CompareAntisymmetric(x.name, ys[0].name);
    forall j | 0 <= j < |rest|
      ensures Compare(ys[0].name, rest[j].name) <= 0
    {
      assert rest[j] in multiset(rest);
      if rest[j] != x {
        assert rest[j] in multiset(ys[1..]);
        var k :| 0 <= k < |ys[1..]| && ys[1..][k] == rest[j];
        assert ys[k + 1] == rest[j];
      }
    }
    forall i, j | 0 <= i < j < |zs|
      ensures Compare(zs[i].name, zs[j].name) <= 0
    {
      if i == 0 {
        assert zs[j] == rest[j - 1];
      } else {
        assert zs[i] == rest[i - 1] && zs[j] == rest[j - 1];
      }
    }
  }

  /** Inserting `x` into a sorted sequence places it in front of every record
      with the same name, so the per-name order gains `x` at its head. */
  lemma {:induction false} InsertWithName(x: NamedRef, ys: seq<NamedRef>, name: string)
    requires SortedByName(ys)
    ensures WithName(Insert(x, ys), name)
         == (if x.name == name then [x] else []) + WithName(ys, name)
    decreases |ys|
  {
    if |ys| == 0 || Compare(x.name, ys[0].name) <= 0 {
      WithNameCons(x, ys, name);
    } else {
      var tail := ys[1..];
      InsertWithName(x, tail, name);
      WithNameSwap(x, ys[0], Insert(x, tail), tail, name);
      assert ys == [ys[0]] + tail;
    }
  }

  /** The per-name order of a record placed in front of a sequence. */
  lemma WithNameCons(x: NamedRef, xs: seq<NamedRef>, name: string)
    ensures WithName([x] + xs, name) == (if x.name == name then [x] else []) + WithName(xs, name)
  {
    WithNameUnfold([x] + xs, name);
    assert ([x] + xs)[1..] == xs;
  }

  /** Putting `y` in front commutes with adding `x` to the per-name order
      when the two records have different names. */
  lemma WithNameSwap(x: NamedRef, y: NamedRef, rest: seq<NamedRef>, tail: seq<NamedRef>, name: string)
    requires x.name != y.name
    requires WithName(rest, name) == (if x.name == name then [x] else []) + WithName(tail, name)
    ensures WithName([y] + rest, name)
         == (if x.name == name then [x] else []) + WithName([y] + tail, name)
  {
    WithNameCons(y, rest, name);
    WithNameCons(y, tail, name);
    var wt := WithName(tail, name);
    if x.name == name {
      assert WithName([y] + rest, name) == [x] + wt;
      assert WithName([y] + tail, name) == wt;
    } else if y.name == name {
      assert WithName([y] + rest, name) == [y] + wt;
      assert WithName([y] + tail, name) == [y] + wt;
    } else {
      assert WithName([y] + rest, name) == wt;
      assert WithName([y] + tail, name) == wt;
    }
  }

  /** The stable sort by name: `[...xs].sort((a, b) => a.name.localeCompare(b.name))`. */
  function SortByName(xs: seq<NamedRef>): (ys: seq<NamedRef>)
    ensures SortedByName(ys)
    ensures multiset(ys) == multiset(xs)
    ensures |ys| == |xs|
    ensures StableFor(ys, xs)
    decreases |xs|
  {
    if |xs| == 0 then []
    else
      var rest := SortByName(xs[1..]);
      InsertKeepsStable(xs, rest);
      HeadTailMultiset(xs);
      Insert(xs[0], rest)
  }

  /** A non-empty sequence holds its head once more than its tail. */
  lemma HeadTailMultiset(xs: seq<NamedRef>)
    requires |xs| > 0
    ensures multiset(xs) == multiset(xs[1..]) + multiset{xs[0]}
  {
    assert xs == [xs[0]] + xs[1..];
  }

  /** Inserting the head of `xs` into a stable sort of its tail gives a
      stable sort of `xs`. */
  lemma InsertKeepsStable(xs: seq<NamedRef>, rest: seq<NamedRef>)
    requires |xs| > 0 && SortedByName(rest) && StableFor(rest, xs[1..])
    ensures StableFor(Insert(xs[0], rest), xs)
  {
    forall name ensures WithName(Insert(xs[0], rest), name) == WithName(xs, name) {
      InsertWithName(xs[0], rest, name);
      WithNameUnfold(xs, name);
    }
  }

  /** A sorted sequence has exactly one arrangement that keeps each name's
      records in a given order: sortedness and stability fix the result. */
  lemma {:induction false} SortedStableUnique(r1: seq<NamedRef>, r2: seq<NamedRef>)
    requires SortedByName(r1) && SortedByName(r2)
    requires forall name :: WithName(r1, name) == WithName(r2, name)
    ensures r1 == r2
    decreases |r1|
  {
    if |r1| == 0 && |r2| > 0 {
      HeadHasName(r2);
    } else if |r1| > 0 && |r2| == 0 {
      HeadHasName(r1);
    } else if |r1| > 0 {
      HeadsAgree(r1, r2);
      forall name ensures WithName(r1[1..], name) == WithName(r2[1..], name) {
        WithNameTail(r1, r2, name);
      }
      SortedStableUnique(r1[1..], r2[1..]);
      assert |r1| == |r2|;
      forall i | 0 <= i < |r1| ensures r1[i] == r2[i] {
        if i > 0 {
          assert r1[i] == r1[1..][i - 1] && r2[i] == r2[1..][i - 1];
        }
      }
    }
  }

  /** Equal heads and equal per-name orders leave equal per-name orders of the tails. */
  lemma WithNameTail(r1: seq<NamedRef>, r2: seq<NamedRef>, name: string)
    requires |r1| > 0 && |r2| > 0 && r1[0] == r2[0]
    requires WithName(r1, name) == WithName(r2, name)
    ensures WithName(r1[1..], name) == WithName(r2[1..], name)
  {
    WithNameUnfold(r1, name);
    WithNameUnfold(r2, name);
    var p := if r1[0].name == name then [r1[0]] else [];
    var w := WithName(r1, name);
    assert WithName(r1[1..], name) == w[|p|..];
    assert WithName(r2[1..], name) == w[|p|..];
  }

  /** Two non-empty sorted sequences with the same per-name orders start
      with the same record. */
  lemma HeadsAgree(r1: seq<NamedRef>, r2: seq<NamedRef>)
    requires SortedByName(r1) && SortedByName(r2) && |r1| > 0 && |r2| > 0
    requires forall name :: WithName(r1, name) == WithName(r2, name)
    ensures r1[0] == r2[0]
  {
    var a, b := r1[0], r2[0];
    HeadHasName(r2);
    WithNameMember(r1, b.name, b);
    SortedHeadFirst(r1, b);
    HeadHasName(r1);
    WithNameMember(r2, a.name, a);
    SortedHeadFirst(r2, a);
    CompareAntisymmetric(a.name, b.name);
    assert a.name == b.name;
    var n := a.name;
    WithNameUnfold(r1, n);
    WithNameUnfold(r2, n);
    assert WithName(r1, n)[0] == a;
    assert WithName(r2, n)[0] == b;
  }

  /** `SortByName(xs)` is the one sequence that is sorted by name and keeps
      records of equal name in their order in `xs`. */
  lemma SortByNameCharacterized(xs: seq<NamedRef>, ys: seq<NamedRef>)
    ensures ys == SortByName(xs) <==> SortedByName(ys) && StableFor(ys, xs)
  {
    if SortedByName(ys) && StableFor(ys, xs) {
      SortedStableUnique(ys, SortByName(xs));
    }
  }

  /** Sorting a list that is already in name order leaves it as it is. */
  lemma SortSortedIsIdentity(xs: seq<NamedRef>)
    requires SortedByName(xs)
    ensures SortByName(xs) == xs
  {
    SortByNameCharacterized(xs, xs);
  }

  // ---------------------------------------------------------------------
  // Paging
  // ---------------------------------------------------------------------

  function Min(a: int, b: int): int { if a <= b then a else b }

  /** `xs.slice(start, end)` for non-negative bounds: out-of-range bounds are
      clamped to the length. */
  function Slice<T>(xs: seq<T>, start: nat, end: nat): (ys: seq<T>)
    requires start <= end
    ensures |ys| == if start < |xs| then Min(end, |xs|) - start else 0
    ensures forall i :: 0 <= i < |ys| ==> ys[i] == xs[start + i]
  {
    if start < |xs| then xs[start..Min(end, |xs|)] else []
  }

  /** Offset of the first record of page `page` (pages count from 1). */
  function PageStart(page: int, perPage: int): nat
    requires page >= 1 && perPage >= 1
  {
    (page - 1) * perPage
  }

  /** The records shown on page `page` of `perPage` records each. */
  function Page<T>(xs: seq<T>, page: int, perPage: int): (ys: seq<T>)
    requires page >= 1 && perPage >= 1
    ensures |ys| <= perPage
    ensures PageStart(page, perPage) + |ys| <= |xs| || ys == []
    ensures PageStart(page, perPage) >= |xs| <==> ys == []
    ensures forall i :: 0 <= i < |ys| ==> ys[i] == xs[PageStart(page, perPage) + i]
    ensures PageStart(page, perPage) + perPage <= |xs| ==> |ys| == perPage
    ensures ys == xs[Min(PageStart(page, perPage), |xs|)..Min(PageStart(page, perPage) + perPage, |xs|)]
  {
    var start := PageStart(page, perPage);
    Slice(xs, start, start + perPage)
  }

  /** `Math.ceil(count / perPage)` for a non-negative count, computed by
      repeated subtraction: the least page count whose pages hold `count` records. */
  function PageCount(count: nat, perPage: int): (n: nat)
    requires perPage >= 1
    ensures n * perPage >= count
    ensures n > 0 ==> (n - 1) * perPage < count
    ensures n == 0 <==> count == 0
    decreases count
  {
    if count == 0 then 0
    else if count <= perPage then 1
    else
      var n := PageCount(count - perPage, perPage);
      assert (n + 1) * perPage == n * perPage + perPage;
      assert n * perPage == (n - 1) * perPage + perPage;
      n + 1
  }

  /** Pages `1..count`, one after the other. */
  function Pages<T>(xs: seq<T>, count: nat, perPage: int): seq<T>
    requires perPage >= 1
  {
    if count == 0 then [] else Pages(xs, count - 1, perPage) + Page(xs, count, perPage)
  }

  /** The first `count` pages are the prefix of `xs` of `count * perPage` records. */
  lemma {:induction false} PagesPrefix<T>(xs: seq<T>, count: nat, perPage: int)
    requires perPage >= 1
    ensures Pages(xs, count, perPage) == xs[..Min(count * perPage, |xs|)]
  {
    if count > 0 {
      PagesPrefix(xs, count - 1, perPage);
      var start := PageStart(count, perPage);
      var stop := count * perPage;
      assert stop == start + perPage;
      var lo, hi := Min(start, |xs|), Min(stop, |xs|);
      assert Page(xs, count, perPage) == Slice(xs, start, stop) == xs[lo..hi];
      PrefixSplit(xs, lo, hi);
      assert Pages(xs, count, perPage) == xs[..lo] + xs[lo..hi];
    }
  }

  lemma PrefixSplit<T>(xs: seq<T>, lo: nat, hi: nat)
    requires lo <= hi <= |xs|
    ensures xs[..hi] == xs[..lo] + xs[lo..hi]
  {
  }

  /** Pages `1..PageCount` put back together give the whole sequence. */
  lemma PagesCoverAll<T>(xs: seq<T>, perPage: int)
    requires perPage >= 1
    ensures Pages(xs, PageCount(|xs|, perPage), perPage) == xs
  {
    PagesPrefix(xs, PageCount(|xs|, perPage), perPage);
  }

  /** A page is non-empty exactly when its number is between 1 and the page count. */
  lemma PageNonEmptyIff<T>(xs: seq<T>, page: int, perPage: int)
    requires page >= 1 && perPage >= 1
    ensures Page(xs, page, perPage) != [] <==> page <= PageCount(|xs|, perPage)
  {
    var n := PageCount(|xs|, perPage);
    if page <= n {
      MulMonotone(page - 1, n - 1, perPage);
    } else {
      MulMonotone(n, page - 1, perPage);
    }
  }

  lemma {:induction false} MulMonotone(a: int, b: int, c: nat)
    requires 0 <= a <= b
    ensures a * c <= b * c
    decreases b - a
  {
    if a < b {
      MulMonotone(a + 1, b, c);
    }
  }
}
