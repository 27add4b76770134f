/** The favourites ledger of `src/stores/favorites.ts`: a newest-first list of
    favourites, at most one per IMDb id.  The list is the whole state; persisting it
    to local storage is left to the host.  `Date.now()` is passed in as `now`. */
module Favorites {
  import opened Types
  import opened Strings
  import opened Lists

  /** No two favourites share an IMDb id. */
  ghost predicate UniqueIds(fs: seq<Favorite>) {
    forall i, j :: 0 <= i < j < |fs| ==> fs[i].imdbId != fs[j].imdbId
  }

  /** `favoriteIds`: the ids in the ledger. */
  function FavoriteIds(fs: seq<Favorite>): (ids: set<string>)
    ensures forall k :: 0 <= k < |fs| ==> fs[k].imdbId in ids
    ensures forall id :: id in ids ==> exists k :: 0 <= k < |fs| && fs[k].imdbId == id
  {
    set f | f in fs :: f.imdbId
  }

  /** `isFavorite`: some entry carries the id. */
  predicate IsFavorite(fs: seq<Favorite>, id: string) {
    id in FavoriteIds(fs)
  }

  /** `favoriteCount`: with unique ids it is the number of favourite ids. */
  function FavoriteCount(fs: seq<Favorite>): (n: nat)
    ensures UniqueIds(fs) ==> n == |FavoriteIds(fs)|
  {
    assert UniqueIds(fs) ==> |FavoriteIds(fs)| == |fs| by {
      if UniqueIds(fs) {
        DistinctIdsCount(fs);
      }
    }
    |fs|
  }

  lemma {:induction false} DistinctIdsCount(fs: seq<Favorite>)
    requires UniqueIds(fs)
    ensures |FavoriteIds(fs)| == |fs|
  {
    if fs != [] {
      DistinctIdsCount(fs[1..]);
      assert FavoriteIds(fs) == {fs[0].imdbId} + FavoriteIds(fs[1..]) by {
        assert forall f :: f in fs <==> f == fs[0] || f in fs[1..];
      }
      assert fs[0].imdbId !in FavoriteIds(fs[1..]);
    }
  }

  /** `hasFavorites`. */
  predicate HasFavorites(fs: seq<Favorite>) {
    |fs| > 0
  }

  /** `addFavorite`: a repeat add changes nothing; a new movie goes to the front,
      with all its fields and the time it was added, ahead of the unchanged old list. */
  function AddFavorite(fs: seq<Favorite>, movie: Movie, now: int): (r: seq<Favorite>)
    ensures IsFavorite(fs, movie.imdbId) ==> r == fs
    ensures !IsFavorite(fs, movie.imdbId) ==>
              |r| == |fs| + 1 && r[0].AsMovie() == movie && r[0].addedAt == now && r[1..] == fs
    ensures IsFavorite(r, movie.imdbId)
    ensures UniqueIds(fs) ==> UniqueIds(r)
  {
    if IsFavorite(fs, movie.imdbId) then fs
    else
      var r := [FavoriteOf(movie, now)] + fs;
      assert r[0] in r;
      r
  }

  /** Adding the same movie twice counts it once. */
  lemma AddTwiceCountsOnce(fs: seq<Favorite>, movie: Movie, t1: int, t2: int)
    ensures AddFavorite(AddFavorite(fs, movie, t1), movie, t2) == AddFavorite(fs, movie, t1)
    ensures FavoriteCount(AddFavorite(AddFavorite(fs, movie, t1), movie, t2))
         == FavoriteCount(AddFavorite(fs, movie, t1))
  {
  }

  function WithoutId(id: string): Favorite -> bool {
    (f: Favorite) => f.imdbId != id
  }

  /** `removeFavorite`: drops every entry with the id and keeps the others in order
      (`Lists.FilterAppend`); afterwards the id is no favourite. */
  function RemoveFavorite(fs: seq<Favorite>, id: string): (r: seq<Favorite>)
    ensures !IsFavorite(r, id)
    ensures forall f: Favorite :: f.imdbId != id ==> multiset(r)[f] == multiset(fs)[f]
    ensures forall other :: other != id ==> (IsFavorite(r, other) <==> IsFavorite(fs, other))
    ensures UniqueIds(fs) ==> UniqueIds(r)
  {
    var r := Filter(fs, WithoutId(id));
    assert forall k :: 0 <= k < |r| ==> r[k].imdbId != id by {
      forall k | 0 <= k < |r|
        ensures r[k].imdbId != id
      {
        assert r[k] in multiset(r);
      }
    }
    forall other | other != id && IsFavorite(fs, other)
      ensures IsFavorite(r, other)
    {
      var k :| 0 <= k < |fs| && fs[k].imdbId == other;
      assert fs[k] in multiset(fs);
      assert fs[k] in multiset(r);
    }
    forall other | IsFavorite(r, other)
      ensures IsFavorite(fs, other)
    {
      var k :| 0 <= k < |r| && r[k].imdbId == other;
      assert r[k] in multiset(r);
      assert r[k] in multiset(fs);
    }
    assert UniqueIds(fs) ==> UniqueIds(r) by {
      if UniqueIds(fs) {
        FilterKeepsUnique(fs, WithoutId(id));
      }
    }
    r
  }

  /** Removal works entry by entry and keeps the ledger order: a single entry is
      dropped exactly when it has the id, and removing from a concatenation is
      removing from each part. */
  lemma RemoveFavoriteInOrder(a: seq<Favorite>, b: seq<Favorite>, f: Favorite, id: string)
    ensures RemoveFavorite([f], id) == if f.imdbId == id then [] else [f]
    ensures RemoveFavorite(a + b, id) == RemoveFavorite(a, id) + RemoveFavorite(b, id)
  {
    assert Filter([f], WithoutId(id)) == (if f.imdbId != id then [f] else []) + Filter([f][1..], WithoutId(id));
    FilterAppend(a, b, WithoutId(id));
  }

  /** Every entry a filter keeps comes from the original list. */
  lemma FilteredFromSource(fs: seq<Favorite>, p: Favorite -> bool, f: Favorite)
    requires f in Filter(fs, p)
    ensures f in fs
  {
    assert f in multiset(Filter(fs, p));
  }

  lemma UniqueTail(fs: seq<Favorite>)
    requires fs != [] && UniqueIds(fs)
    ensures UniqueIds(fs[1..])
  {
    forall i, j | 0 <= i < j < |fs| - 1
      ensures fs[1..][i].imdbId != fs[1..][j].imdbId
    {
      assert fs[1..][i] == fs[i + 1] && fs[1..][j] == fs[j + 1];
    }
  }

  lemma UniqueCons(f: Favorite, rest: seq<Favorite>)
    requires UniqueIds(rest)
    requires forall k :: 0 <= k < |rest| ==> rest[k].imdbId != f.imdbId
    ensures UniqueIds([f] + rest)
  {
    var r := [f] + rest;
    forall i, j | 0 <= i < j < |r|
      ensures r[i].imdbId != r[j].imdbId
    {
      if i > 0 {
        assert r[i] == rest[i - 1];
      }
      assert r[j] == rest[j - 1];
    }
  }

  lemma {:induction false} FilterKeepsUnique(fs: seq<Favorite>, p: Favorite -> bool)
    requires UniqueIds(fs)
    ensures UniqueIds(Filter(fs, p))
  {
    if fs != [] {
      var tail := fs[1..];
      UniqueTail(fs);
      FilterKeepsUnique(tail, p);
      var rest := Filter(tail, p);
      if p(fs[0]) {
        forall k | 0 <= k < |rest|
          ensures rest[k].imdbId != fs[0].imdbId
        {
          FilteredFromSource(tail, p, rest[k]);
          var j :| 0 <= j < |tail| && tail[j] == rest[k];
          assert fs[1 + j] == rest[k];
        }
        UniqueCons(fs[0], rest);
      }
    }
  }

  /** Removing a movie that was just added, and was not there before, restores the ledger. */
  lemma RemoveUndoesAdd(fs: seq<Favorite>, movie: Movie, now: int)
    requires !IsFavorite(fs, movie.imdbId)
    ensures RemoveFavorite(AddFavorite(fs, movie, now), movie.imdbId) == fs
  {
    var added := AddFavorite(fs, movie, now);
    assert added == [added[0]] + fs;
    FilterAppend([added[0]], fs, WithoutId(movie.imdbId));
    assert Filter([added[0]], WithoutId(movie.imdbId)) == [] + Filter([added[0]][1..], WithoutId(movie.imdbId));
    FilterAllPass(fs, WithoutId(movie.imdbId));
  }

  /** `toggleFavorite`: removes the movie when it is a favourite, adds it otherwise. */
  function ToggleFavorite(fs: seq<Favorite>, movie: Movie, now: int): (r: seq<Favorite>)
    ensures IsFavorite(r, movie.imdbId) <==> !IsFavorite(fs, movie.imdbId)
    ensures forall other :: other != movie.imdbId ==> (IsFavorite(r, other) <==> IsFavorite(fs, other))
    ensures UniqueIds(fs) ==> UniqueIds(r)
  {
    if IsFavorite(fs, movie.imdbId) then RemoveFavorite(fs, movie.imdbId)
    else
      var r := AddFavorite(fs, movie, now);
      assert forall other :: other != movie.imdbId && IsFavorite(r, other) ==> IsFavorite(fs, other) by {
        forall other | other != movie.imdbId && IsFavorite(r, other)
          ensures IsFavorite(fs, other)
        {
          var k :| 0 <= k < |r| && r[k].imdbId == other;
          assert fs[k - 1].imdbId == other;
        }
      }
      r
  }

  /** Two toggles restore every id's membership (not the position or the timestamp). */
  lemma ToggleTwiceRestoresMembership(fs: seq<Favorite>, movie: Movie, t1: int, t2: int, id: string)
    ensures IsFavorite(ToggleFavorite(ToggleFavorite(fs, movie, t1), movie, t2), id) <==> IsFavorite(fs, id)
  {
  }

  /** `clearFavorites`. */
  function ClearFavorites(fs: seq<Favorite>): (r: seq<Favorite>)
    ensures FavoriteCount(r) == 0
    ensures forall id :: !IsFavorite(r, id)
    ensures UniqueIds(r)
  {
    []
  }

  /** The position `find` stops at: the first entry with the id, or the length of
      the ledger when there is none. */
  function FindIndex(fs: seq<Favorite>, id: string): (k: nat)
    ensures k <= |fs|
    ensures forall j :: 0 <= j < k ==> fs[j].imdbId != id
    ensures k < |fs| ==> fs[k].imdbId == id
  {
    if fs == [] || fs[0].imdbId == id then 0
    else
      var k := FindIndex(fs[1..], id);
      assert forall j :: 1 <= j < k + 1 ==> fs[j] == fs[1..][j - 1];
      1 + k
  }

  /** `getFavorite`: the first entry with the id (`find`), if any; with unique ids,
      the one entry with the id. */
  function GetFavorite(fs: seq<Favorite>, id: string): (r: Option<Favorite>)
    ensures r.Some? <==> IsFavorite(fs, id)
    ensures r.Some? ==> r.value in fs && r.value.imdbId == id
    ensures r.Some? ==>
              exists k :: 0 <= k < |fs| && fs[k] == r.value && forall j :: 0 <= j < k ==> fs[j].imdbId != id
    ensures r.Some? && UniqueIds(fs) ==> forall k :: 0 <= k < |fs| && fs[k].imdbId == id ==> fs[k] == r.value
  {
    var k := FindIndex(fs, id);
    if k < |fs| then Some(fs[k]) else None
  }

  function InYear(year: int): Favorite -> bool {
    (f: Favorite) => f.year == year
  }

  /** `getFavoritesByYear`: exactly the entries from that year, in ledger order. */
  function GetFavoritesByYear(fs: seq<Favorite>, year: int): (r: seq<Favorite>)
    ensures forall k :: 0 <= k < |r| ==> r[k].year == year
    ensures forall f: Favorite :: f.year == year ==> multiset(r)[f] == multiset(fs)[f]
  {
    var r := Filter(fs, InYear(year));
    assert forall k :: 0 <= k < |r| ==> r[k].year == year by {
      forall k | 0 <= k < |r|
        ensures r[k].year == year
      {
        assert r[k] in multiset(r);
      }
    }
    r
  }

  /** Selection by year works entry by entry and keeps the ledger order: a single
      entry is kept exactly when it is from that year, and selecting from a
      concatenation is selecting from each part. */
  lemma FavoritesByYearInOrder(a: seq<Favorite>, b: seq<Favorite>, f: Favorite, year: int)
    ensures GetFavoritesByYear([f], year) == if f.year == year then [f] else []
    ensures GetFavoritesByYear(a + b, year) == GetFavoritesByYear(a, year) + GetFavoritesByYear(b, year)
  {
    assert Filter([f], InYear(year)) == (if f.year == year then [f] else []) + Filter([f][1..], InYear(year));
    FilterAppend(a, b, InYear(year));
  }

  /** The keys `getFavoritesSorted` can order by, and the direction. */
  datatype SortKey = ByTitle | ByYear | ByAddedAt
  datatype Order = Asc | Desc

  /** The comparator of `getFavoritesSorted`: the key's comparison, negated for `desc`. */
  function FavoriteComparator(key: SortKey, order: Order): (Favorite, Favorite) -> int {
    (a: Favorite, b: Favorite) =>
      var comparison := match key
        case ByTitle => CompareStrings(a.title, b.title)
        case ByYear => a.year - b.year
        case ByAddedAt => a.addedAt - b.addedAt;
      if order == Asc then comparison else -comparison
  }

  /** `getFavoritesSorted`: a reordering of a copy of the ledger; the order defaults
      to ascending. */
  function GetFavoritesSorted(fs: seq<Favorite>, key: SortKey, order: Order := Asc): (r: seq<Favorite>)
    ensures multiset(r) == multiset(fs)
  {
    SortBy(FavoriteComparator(key, order), fs)
  }

  lemma FavoriteComparatorConsistent(key: SortKey, order: Order)
    ensures Consistent(FavoriteComparator(key, order))
  {
    var cmp := FavoriteComparator(key, order);
    if key == ByTitle {
      forall a: Favorite, b: Favorite
        ensures cmp(a, b) < 0 <==> cmp(b, a) > 0
      {
        CompareStringsAntisymmetric(a.title, b.title);
      }
      forall a: Favorite, b: Favorite, c: Favorite | cmp(a, b) <= 0 && cmp(b, c) <= 0
        ensures cmp(a, c) <= 0
      {
        if order == Asc {
          CompareStringsTransitive(a.title, b.title, c.title);
        } else {
          CompareStringsAntisymmetric(a.title, b.title);
          CompareStringsAntisymmetric(b.title, c.title);
          CompareStringsAntisymmetric(a.title, c.title);
          CompareStringsTransitive(c.title, b.title, a.title);
        }
      }
    }
  }

  /** The sorted view is ordered by the chosen key and direction, and entries that tie
      keep their ledger order. */
  lemma FavoritesSortedOrdered(fs: seq<Favorite>, key: SortKey, order: Order, z: Favorite)
    ensures SortedBy(FavoriteComparator(key, order), GetFavoritesSorted(fs, key, order))
    ensures Ties(FavoriteComparator(key, order), GetFavoritesSorted(fs, key, order), z)
         == Ties(FavoriteComparator(key, order), fs, z)
  {
    FavoriteComparatorConsistent(key, order);
    SortBySorted(FavoriteComparator(key, order), fs);
    SortByStable(FavoriteComparator(key, order), fs, z);
  }

  /** The descending comparator is the ascending one with its operands swapped. */
  lemma DescendingIsSwapped(key: SortKey)
    ensures forall a: Favorite, b: Favorite ::
              FavoriteComparator(key, Desc)(a, b) == FavoriteComparator(key, Asc)(b, a)
  {
    forall a: Favorite, b: Favorite
      ensures FavoriteComparator(key, Desc)(a, b) == FavoriteComparator(key, Asc)(b, a)
    {
      CompareStringsAntisymmetric(a.title, b.title);
    }
  }

  /** When no two different favourites tie on the key, the descending view is the
      ascending view reversed. */
  lemma FavoritesDescReversesAsc(fs: seq<Favorite>, key: SortKey)
    requires forall x, y :: x in fs && y in fs && FavoriteComparator(key, Asc)(x, y) == 0 ==> x == y
    ensures GetFavoritesSorted(fs, key, Desc) == Reverse(GetFavoritesSorted(fs, key))
  {
    FavoriteComparatorConsistent(key, Asc);
    DescendingIsSwapped(key);
    SortByReversed(FavoriteComparator(key, Asc), FavoriteComparator(key, Desc), fs);
  }

  /** Sorted by year ascending, earlier years come first. */
  lemma FavoritesByYearAscending(fs: seq<Favorite>, i: int, j: int)
    requires 0 <= i < j < |GetFavoritesSorted(fs, ByYear, Asc)|
    ensures GetFavoritesSorted(fs, ByYear, Asc)[i].year <= GetFavoritesSorted(fs, ByYear, Asc)[j].year
  {
    FavoritesSortedOrdered(fs, ByYear, Asc, fs[0]);
  }
}
