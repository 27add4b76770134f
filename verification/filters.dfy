/** The filter store of `src/stores/filters.ts`: a sort option and a year range,
    and the pure operations that filter and order a list of titles with them.
    `MAX_YEAR` is computed from the clock in the application, so every operation
    that needs it takes the current calendar year as a parameter. */
module Filters {
  import opened Types
  import opened Strings
  import opened Lists
  import Validators

  const MinYear := 1900

  function MaxYear(currentYear: int): int {
    currentYear + 1
  }

  const DefaultSort := TitleAsc

  /** An inclusive year range; nothing forces `lo <= hi`. */
  datatype YearRange = YearRange(lo: int, hi: int)

  datatype FilterState = FilterState(sortBy: SortOption, yearRange: YearRange)

  function FullRange(currentYear: int): YearRange {
    YearRange(MinYear, MaxYear(currentYear))
  }

  /** The store as it is created: title order and the full year range. */
  function InitialFilters(currentYear: int): (st: FilterState)
    ensures st.sortBy == TitleAsc
    ensures st.yearRange.lo == 1900 && st.yearRange.hi == currentYear + 1
    ensures !HasActiveFilters(st, currentYear)
  {
    FilterState(DefaultSort, FullRange(currentYear))
  }

  /** `hasActiveFilters`: the year range or the sort option differs from its default. */
  predicate HasActiveFilters(st: FilterState, currentYear: int) {
    var isYearFiltered := st.yearRange.lo != MinYear || st.yearRange.hi != MaxYear(currentYear);
    var isSortChanged := st.sortBy != DefaultSort;
    isYearFiltered || isSortChanged
  }

  /** Filters are active exactly when the store is not in its initial state. */
  lemma ActiveIffNotInitial(st: FilterState, currentYear: int)
    ensures HasActiveFilters(st, currentYear) <==> st != InitialFilters(currentYear)
  {
  }

  /** `setSortBy`: replaces the sort option and nothing else. */
  function SetSortBy(st: FilterState, sort: SortOption): (r: FilterState)
    ensures r.sortBy == sort && r.yearRange == st.yearRange
  {
    st.(sortBy := sort)
  }

  /** Changing the sort option makes the filters active exactly when the new option
      is not the default or the year range is not the full one; and the filtered
      list then comes out in the new option's order. */
  lemma SetSortByActivity<T(!new)>(st: FilterState, sort: SortOption, currentYear: int, items: seq<T>, view: T -> Movie)
    ensures HasActiveFilters(SetSortBy(st, sort), currentYear)
        <==> sort != TitleAsc || st.yearRange != FullRange(currentYear)
    ensures SortedBy(Through(Comparator(sort), view), ApplyFilters(SetSortBy(st, sort), items, view))
  {
    ComparatorConsistent(sort);
    ThroughConsistent(Comparator(sort), view);
    SortBySorted(Through(Comparator(sort), view), Filter(items, InYears(st.yearRange, view)));
  }

  /** `setYearRange`: clamps the lower bound up to `MIN_YEAR` and the upper bound down
      to `MAX_YEAR`, each on its own; the bounds are not reordered. */
  function SetYearRange(st: FilterState, min: int, max: int, currentYear: int): (r: FilterState)
    ensures r.sortBy == st.sortBy
    ensures MinYear <= r.yearRange.lo && r.yearRange.hi <= MaxYear(currentYear)
    ensures min >= MinYear ==> r.yearRange.lo == min
    ensures max <= MaxYear(currentYear) ==> r.yearRange.hi == max
    ensures min < MinYear ==> r.yearRange.lo == MinYear
    ensures max > MaxYear(currentYear) ==> r.yearRange.hi == MaxYear(currentYear)
  {
    var lo := if MinYear >= min then MinYear else min;
    var hi := if MaxYear(currentYear) <= max then MaxYear(currentYear) else max;
    st.(yearRange := YearRange(lo, hi))
  }

  /** Setting a range that is already inside the bounds stores it as given, so a
      second identical call changes nothing. */
  lemma SetYearRangeIdempotent(st: FilterState, min: int, max: int, currentYear: int)
    ensures var once := SetYearRange(st, min, max, currentYear);
            SetYearRange(once, once.yearRange.lo, once.yearRange.hi, currentYear) == once
  {
  }

  /** `clearFilters`: back to the defaults. */
  function ClearFilters(st: FilterState, currentYear: int): (r: FilterState)
    ensures r == InitialFilters(currentYear)
    ensures !HasActiveFilters(r, currentYear)
  {
    FilterState(DefaultSort, FullRange(currentYear))
  }

  /** Every year the range setter can store is accepted by `isValidYear`. */
  lemma ClampedYearsAreValid(st: FilterState, min: int, max: int, currentYear: int, year: int)
    requires var r := SetYearRange(st, min, max, currentYear); r.yearRange.lo <= year <= r.yearRange.hi
    ensures Validators.IsValidYear(year, currentYear)
  {
  }

  /** The comparator `applyFilters` hands to `sort` for each option. */
  function Comparator(sort: SortOption): (Movie, Movie) -> int {
    match sort
    case TitleAsc => (a: Movie, b: Movie) => CompareStrings(a.title, b.title)
    case TitleDesc => (a: Movie, b: Movie) => CompareStrings(b.title, a.title)
    case YearAsc => (a: Movie, b: Movie) => a.year - b.year
    case YearDesc => (a: Movie, b: Movie) => b.year - a.year
  }

  /** A comparator on movies lifted to any record that can be viewed as a movie. */
  function Through<T>(cmp: (Movie, Movie) -> int, view: T -> Movie): (T, T) -> int {
    (a: T, b: T) => cmp(view(a), view(b))
  }

  /** The year predicate of `applyFilters`, inclusive at both ends. */
  function InYears<T>(range: YearRange, view: T -> Movie): T -> bool {
    x => range.lo <= view(x).year && view(x).year <= range.hi
  }

  /** Code-point order on titles, lifted to movies, is a consistent comparator. */
  lemma TitleOrderConsistent()
    ensures Consistent((a: Movie, b: Movie) => CompareStrings(a.title, b.title))
  {
    var cmp := (a: Movie, b: Movie) => CompareStrings(a.title, b.title);
    forall a: Movie, b: Movie
      ensures cmp(a, b) < 0 <==> cmp(b, a) > 0
    {
      CompareStringsAntisymmetric(a.title, b.title);
    }
    forall a: Movie, b: Movie, c: Movie | cmp(a, b) <= 0 && cmp(b, c) <= 0
      ensures cmp(a, c) <= 0
    {
      CompareStringsTransitive(a.title, b.title, c.title);
    }
  }

  lemma ReversedTitleOrderConsistent()
    ensures Consistent((a: Movie, b: Movie) => CompareStrings(b.title, a.title))
  {
    var cmp := (a: Movie, b: Movie) => CompareStrings(b.title, a.title);
    forall a: Movie, b: Movie
      ensures cmp(a, b) < 0 <==> cmp(b, a) > 0
    {
      CompareStringsAntisymmetric(a.title, b.title);
    }
    forall a: Movie, b: Movie, c: Movie | cmp(a, b) <= 0 && cmp(b, c) <= 0
      ensures cmp(a, c) <= 0
    {
      CompareStringsTransitive(c.title, b.title, a.title);
    }
  }

  /** All four comparators are consistent, so `sort` orders by them. */
  lemma ComparatorConsistent(sort: SortOption)
    ensures Consistent(Comparator(sort))
  {
    match sort
    case TitleAsc => TitleOrderConsistent();
    case TitleDesc => ReversedTitleOrderConsistent();
    case YearAsc =>
    case YearDesc =>
  }

  lemma ThroughConsistent<T(!new)>(cmp: (Movie, Movie) -> int, view: T -> Movie)
    requires Consistent(cmp)
    ensures Consistent(Through(cmp, view))
  {
    var c := Through(cmp, view);
    forall a: T, b: T, d: T | c(a, b) <= 0 && c(b, d) <= 0
      ensures c(a, d) <= 0
    {
      assert cmp(view(a), view(b)) <= 0 && cmp(view(b), view(d)) <= 0;
    }
  }

  /** `applyFilters`: the items whose year lies in the range, ordered by the selected
      comparator.  It works on a copy, so the caller's list is untouched; `view` reads
      the movie fields of a search row or of a favourite. */
  function ApplyFilters<T(!new)>(st: FilterState, items: seq<T>, view: T -> Movie): (r: seq<T>)
    ensures multiset(r) == multiset(Filter(items, InYears(st.yearRange, view)))
    ensures forall k :: 0 <= k < |r| ==> st.yearRange.lo <= view(r[k]).year <= st.yearRange.hi
    ensures st.yearRange.lo > st.yearRange.hi ==> r == []
  {
    var kept := Filter(items, InYears(st.yearRange, view));
    var r := SortBy(Through(Comparator(st.sortBy), view), kept);
    assert forall k :: 0 <= k < |r| ==> InYears(st.yearRange, view)(r[k]) by {
      forall k | 0 <= k < |r|
        ensures InYears(st.yearRange, view)(r[k])
      {
        assert r[k] in multiset(r);
      }
    }
    r
  }

  /** The range setter does not reorder its bounds: asking for 2010 to 2000 stores
      that inverted range, and filtering with it keeps nothing. */
  lemma SetYearRangeMayInvert<T(!new)>(st: FilterState, items: seq<T>, view: T -> Movie, currentYear: int)
    requires currentYear >= 1999
    ensures var r := SetYearRange(st, 2010, 2000, currentYear);
            r.yearRange == YearRange(2010, 2000) && ApplyFilters(r, items, view) == []
  {
  }

  /** Every item in range is kept, as often as it occurs. */
  lemma ApplyFiltersKeepsInRange<T(!new)>(st: FilterState, items: seq<T>, view: T -> Movie, x: T)
    requires x in items && st.yearRange.lo <= view(x).year <= st.yearRange.hi
    ensures multiset(ApplyFilters(st, items, view))[x] == multiset(items)[x]
  {
  }

  /** The result is ordered by the selected comparator, and items that compare equal
      keep their input order (the JavaScript sort is stable). */
  lemma ApplyFiltersOrdered<T(!new)>(st: FilterState, items: seq<T>, view: T -> Movie, z: T)
    ensures SortedBy(Through(Comparator(st.sortBy), view), ApplyFilters(st, items, view))
    ensures var cmp := Through(Comparator(st.sortBy), view);
            Ties(cmp, ApplyFilters(st, items, view), z) == Ties(cmp, Filter(items, InYears(st.yearRange, view)), z)
  {
    ComparatorConsistent(st.sortBy);
    ThroughConsistent(Comparator(st.sortBy), view);
    var cmp := Through(Comparator(st.sortBy), view);
    var kept := Filter(items, InYears(st.yearRange, view));
    SortBySorted(cmp, kept);
    SortByStable(cmp, kept, z);
  }

  lemma KeptAreItems<T(!new)>(range: YearRange, items: seq<T>, view: T -> Movie, x: T)
    requires x in Filter(items, InYears(range, view))
    ensures x in items
  {
    assert x in multiset(Filter(items, InYears(range, view)));
  }

  /** Each descending order is the ascending one with its operands swapped, so for
      data without ties the descending result is the ascending result reversed. */
  lemma DescReversesAsc<T(!new)>(asc: SortOption, desc: SortOption, yr: YearRange, items: seq<T>, view: T -> Movie)
    requires (asc, desc) == (TitleAsc, TitleDesc) || (asc, desc) == (YearAsc, YearDesc)
    requires forall x, y :: x in items && y in items && Through(Comparator(asc), view)(x, y) == 0 ==> x == y
    ensures ApplyFilters(FilterState(desc, yr), items, view) == Reverse(ApplyFilters(FilterState(asc, yr), items, view))
  {
    var kept := Filter(items, InYears(yr, view));
    var up, down := Through(Comparator(asc), view), Through(Comparator(desc), view);
    ComparatorConsistent(asc);
    ThroughConsistent(Comparator(asc), view);
    assert TieFree(up, kept) by {
      forall x, y | x in kept && y in kept && up(x, y) == 0
        ensures x == y
      {
        KeptAreItems(yr, items, view, x);
        KeptAreItems(yr, items, view, y);
      }
    }
    SortByReversed(up, down, kept);
  }

  /** When no two different items share a title, sorting by title descending gives the
      title-ascending result reversed. */
  lemma TitleDescReversesAsc<T(!new)>(yr: YearRange, items: seq<T>, view: T -> Movie)
    requires forall x, y :: x in items && y in items && view(x).title == view(y).title ==> x == y
    ensures ApplyFilters(FilterState(TitleDesc, yr), items, view)
         == Reverse(ApplyFilters(FilterState(TitleAsc, yr), items, view))
  {
    DescReversesAsc(TitleAsc, TitleDesc, yr, items, view);
  }

  /** When no two different items share a year, sorting by year descending gives the
      year-ascending result reversed. */
  lemma YearDescReversesAsc<T(!new)>(yr: YearRange, items: seq<T>, view: T -> Movie)
    requires forall x, y :: x in items && y in items && view(x).year == view(y).year ==> x == y
    ensures ApplyFilters(FilterState(YearDesc, yr), items, view)
         == Reverse(ApplyFilters(FilterState(YearAsc, yr), items, view))
  {
    DescReversesAsc(YearAsc, YearDesc, yr, items, view);
  }

  /** The search rows of a title-ascending result really are in title order. */
  lemma TitleAscendingOrder(st: FilterState, items: seq<Movie>, i: int, j: int)
    requires st.sortBy == TitleAsc
    requires var r := ApplyFilters(st, items, (m: Movie) => m); 0 <= i < j < |r|
    ensures var r := ApplyFilters(st, items, (m: Movie) => m);
            CompareStrings(r[i].title, r[j].title) <= 0
  {
    ApplyFiltersOrdered(st, items, (m: Movie) => m, items[0]);
  }

  function MinYearOf<T>(items: seq<T>, view: T -> Movie): (y: int)
    requires items != []
    ensures forall k :: 0 <= k < |items| ==> y <= view(items[k]).year
    ensures exists k :: 0 <= k < |items| && view(items[k]).year == y
  {
    if |items| == 1 then view(items[0]).year
    else
      var rest := MinYearOf(items[1..], view);
      assert forall k :: 1 <= k < |items| ==> items[k] == items[1..][k - 1];
      if view(items[0]).year <= rest then view(items[0]).year else rest
  }

  function MaxYearOf<T>(items: seq<T>, view: T -> Movie): (y: int)
    requires items != []
    ensures forall k :: 0 <= k < |items| ==> view(items[k]).year <= y
    ensures exists k :: 0 <= k < |items| && view(items[k]).year == y
  {
    if |items| == 1 then view(items[0]).year
    else
      var rest := MaxYearOf(items[1..], view);
      assert forall k :: 1 <= k < |items| ==> items[k] == items[1..][k - 1];
      if view(items[0]).year >= rest then view(items[0]).year else rest
  }

  /** `getYearRangeFromMovies`: the default range for an empty list, otherwise the
      smallest and the largest year in it, both attained. */
  function GetYearRangeFromMovies<T>(items: seq<T>, view: T -> Movie, currentYear: int): (r: YearRange)
    ensures items == [] ==> r == FullRange(currentYear)
    ensures items != [] ==> r.lo <= r.hi
    ensures items != [] ==> forall k :: 0 <= k < |items| ==> r.lo <= view(items[k]).year <= r.hi
    ensures items != [] ==> exists k :: 0 <= k < |items| && view(items[k]).year == r.lo
    ensures items != [] ==> exists k :: 0 <= k < |items| && view(items[k]).year == r.hi
  {
    if |items| == 0 then FullRange(currentYear)
    else YearRange(MinYearOf(items, view), MaxYearOf(items, view))
  }

  /** Filtering with the range derived from a list keeps the whole list. */
  lemma DerivedRangeKeepsAll<T(!new)>(sort: SortOption, items: seq<T>, view: T -> Movie, currentYear: int)
    requires items != []
    ensures var st := FilterState(sort, GetYearRangeFromMovies(items, view, currentYear));
            multiset(ApplyFilters(st, items, view)) == multiset(items)
  {
    var range := GetYearRangeFromMovies(items, view, currentYear);
    FilterAllPass(items, InYears(range, view));
  }

  /** The unit-test case: years 1990, 2000 and 2020 give the range [1990, 2020]. */
  lemma YearRangeExample(currentYear: int)
    ensures var ms := [Movie("Movie 1", 1990, "tt1", None), Movie("Movie 2", 2000, "tt2", None),
                       Movie("Movie 3", 2020, "tt3", None)];
            GetYearRangeFromMovies(ms, (m: Movie) => m, currentYear) == YearRange(1990, 2020)
  {
  }
}
