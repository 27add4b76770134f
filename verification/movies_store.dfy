/** The search store of `src/stores/movies.ts`: one page of search results, enriched
    with posters from the detail service, plus the pagination around it.  Each action
    is a function from the state before it to the state once its requests have settled;
    the two services are parameters. */
module MoviesStore {
  import opened Types
  import opened Http
  import opened Strings
  import opened Validators
  import opened MoviesApi
  import opened ImdbApi

  /** The store's state. */
  datatype SearchState = SearchState(
    movies: seq<Movie>,
    currentPage: int,
    totalPages: int,
    totalResults: int,
    perPage: int,
    searchQuery: string,
    loading: bool,
    error: Option<string>)

  /** The state the store is created with: page 1, ten per page, nothing loaded. */
  const InitialSearch := SearchState([], 1, 0, 0, 10, "", false, None)

  /** The text shown for a failure that is not an `ApiError`. */
  const UnexpectedMessage := "An unexpected error occurred"

  /** The two services the store talks to. */
  datatype Network = Network(movies: MoviesEndpoint, imdb: ImdbEndpoint)

  predicate HasMovies(st: SearchState) {
    |st.movies| > 0
  }

  predicate HasError(st: SearchState) {
    st.error.Some?
  }

  predicate HasNextPage(st: SearchState) {
    st.currentPage < st.totalPages
  }

  predicate HasPreviousPage(st: SearchState) {
    st.currentPage > 1
  }

  /** `imdbDetails[index]?.primaryImage?.url || undefined`: the poster URL in slot `i`,
      when the slot exists, holds a record, the record has an image and its URL is
      not empty. */
  function PosterAt(details: seq<Option<ImdbMovie>>, i: nat): Option<string> {
    if i < |details| && details[i].Some? && details[i].value.primaryImage.Some?
       && details[i].value.primaryImage.value.url != []
    then Some(details[i].value.primaryImage.value.url)
    else None
  }

  /** The ids of a page of results, in order. */
  function IdsOf(data: seq<Movie>): (ids: seq<string>)
    ensures |ids| == |data|
    ensures forall i :: 0 <= i < |data| ==> ids[i] == data[i].imdbId
  {
    seq(|data|, i requires 0 <= i < |data| => data[i].imdbId)
  }

  /** The rows of a page with their poster replaced by the one found in the matching
      detail slot; every other field of a row is kept, and a row whose slot yields no
      poster ends up with none, whatever it carried before. */
  function MergeImages(data: seq<Movie>, details: seq<Option<ImdbMovie>>): (r: seq<Movie>)
    ensures |r| == |data|
    ensures forall i :: 0 <= i < |data| ==>
              r[i].title == data[i].title && r[i].year == data[i].year && r[i].imdbId == data[i].imdbId
    ensures forall i :: 0 <= i < |data| ==>
              (r[i].imageUrl.Some? <==> i < |details| && details[i].Some? && details[i].value.primaryImage.Some?
                                        && details[i].value.primaryImage.value.url != [])
    ensures forall i :: 0 <= i < |data| && r[i].imageUrl.Some? ==>
              r[i].imageUrl.value == details[i].value.primaryImage.value.url
  {
    seq(|data|, i requires 0 <= i < |data| => data[i].(imageUrl := PosterAt(details, i)))
  }

  /** The request `fetchMovies` makes for a sanitised query.  A non-empty query is
      searched for and an empty one lists everything, but the two branches send the
      same request: the listing is the empty-title search. */
  function SearchFor(q: string, page: int, api: MoviesEndpoint): (r: Result<MoviesResponse, ApiError>)
    ensures r == SearchMovies(SearchParams(q, Some(page)), api)
  {
    if q != [] then SearchMovies(SearchParams(q, Some(page)), api)
    else GetAllMovies(Some(page), api)
  }

  /** `fetchMovies`, whose page defaults to 1.  The search outcome decides everything but the posters.  On
      success the page, its totals and the sanitised query are taken over and the rows
      are the response's rows with posters merged in, looked up by id; on failure the
      results and totals are emptied, the page, page size and query are kept, and the
      gateway's message is shown.  Either way loading has finished, and an earlier error
      survives only if this fetch failed. */
  function FetchMovies(st: SearchState, query: string, page: int := 1, net: Network): (r: SearchState)
    ensures !r.loading
    ensures var outcome := SearchMovies(SearchParams(SanitizeInput(query), Some(page)), net.movies);
            && (r.error.None? <==> outcome.Success?)
            && (outcome.Success? ==>
                  && r.currentPage == outcome.value.page
                  && r.totalPages == outcome.value.totalPages
                  && r.totalResults == outcome.value.total
                  && r.perPage == outcome.value.perPage
                  && r.searchQuery == SanitizeInput(query)
                  && r.movies == MergeImages(outcome.value.data,
                                             GetMultipleMovieDetails(IdsOf(outcome.value.data), net.imdb)))
            && (outcome.Failure? ==>
                  r == st.(movies := [], totalPages := 0, totalResults := 0, loading := false,
                           error := Some(outcome.error.message)))
  {
    var started := st.(loading := true, error := None);
    var q := SanitizeInput(query);
    match SearchFor(q, page, net.movies)
    case Success(response) =>
      var details := GetMultipleMovieDetails(IdsOf(response.data), net.imdb);
      started.(movies := MergeImages(response.data, details),
               currentPage := response.page,
               totalPages := response.totalPages,
               totalResults := response.total,
               perPage := response.perPage,
               searchQuery := q,
               loading := false)
    case Failure(e) =>
      started.(error := Some(ErrorText(ApiThrown(e), UnexpectedMessage)),
               movies := [],
               totalPages := 0,
               totalResults := 0,
               loading := false)
  }

  /** Every error a fetch can leave behind is one of the search gateway's messages;
      the store's own fallback text is never shown, because the gateways throw nothing
      but `ApiError`s and the detail lookups never throw. */
  lemma FetchErrorIsSearchMessage(st: SearchState, query: string, page: int, net: Network)
    ensures FetchMovies(st, query, page, net).error.Some? ==>
              IsSearchMessage(FetchMovies(st, query, page, net).error.value)
              && FetchMovies(st, query, page, net).error.value != UnexpectedMessage
  {
    var outcome := SearchMovies(SearchParams(SanitizeInput(query), Some(page)), net.movies);
    if outcome.Failure? {
      SearchFailureKinds(SearchParams(SanitizeInput(query), Some(page)), net.movies);
    }
  }

  /** The detail service only ever affects posters: with the same search service, two
      fetches agree on everything else, whatever the detail service does. */
  lemma DetailsOnlyAffectPosters(st: SearchState, query: string, page: int, n1: Network, n2: Network)
    requires n1.movies == n2.movies
    ensures FetchMovies(st, query, page, n1).(movies := []) == FetchMovies(st, query, page, n2).(movies := [])
    ensures |FetchMovies(st, query, page, n1).movies| == |FetchMovies(st, query, page, n2).movies|
    ensures forall i :: 0 <= i < |FetchMovies(st, query, page, n1).movies| ==>
              FetchMovies(st, query, page, n1).movies[i].(imageUrl := None)
              == FetchMovies(st, query, page, n2).movies[i].(imageUrl := None)
  {
  }

  /** With the detail service unreachable a search still succeeds or fails on its own,
      and every row comes without a poster. */
  lemma OfflineDetailsGiveNoPosters(st: SearchState, query: string, page: int, net: Network)
    requires forall id :: net.imdb(id).NoResponse?
    ensures forall i :: 0 <= i < |FetchMovies(st, query, page, net).movies| ==>
              FetchMovies(st, query, page, net).movies[i].imageUrl.None?
  {
    var r := FetchMovies(st, query, page, net);
    var outcome := SearchMovies(SearchParams(SanitizeInput(query), Some(page)), net.movies);
    if outcome.Success? {
      MultipleOffline(IdsOf(outcome.value.data), net.imdb);
    }
  }

  /** `searchMoviesByTitle`: a fresh search always starts at page 1.  A failed search
      therefore leaves the store on page 1; a successful one on the page the service
      reports. */
  function SearchMoviesByTitle(st: SearchState, query: string, net: Network): (r: SearchState)
    ensures var outcome := SearchMovies(SearchParams(SanitizeInput(query), Some(1)), net.movies);
            && (outcome.Failure? ==> r.currentPage == 1 && r.error == Some(outcome.error.message))
            && (outcome.Success? ==> r.currentPage == outcome.value.page && r.error.None?)
  {
    FetchMovies(st.(currentPage := 1), query, 1, net)
  }

  /** `goToPage`: a page that is not a valid page number or lies beyond the last page
      is ignored; any other page is fetched for the stored query. */
  function GoToPage(st: SearchState, page: int, net: Network): (r: SearchState)
    ensures !(IsValidPage(page) && page <= st.totalPages) ==> r == st
    ensures IsValidPage(page) && page <= st.totalPages ==> r == FetchMovies(st, st.searchQuery, page, net)
  {
    if page < 1 || page > st.totalPages then st
    else FetchMovies(st, st.searchQuery, page, net)
  }

  /** `nextPage`: fetches the following page when there is one and it is a valid
      page number; otherwise it does nothing, even when a next page is advertised
      (a service may report a negative current page). */
  function NextPage(st: SearchState, net: Network): (r: SearchState)
    ensures !HasNextPage(st) ==> r == st
    ensures HasNextPage(st) && st.currentPage >= 0 ==> r == FetchMovies(st, st.searchQuery, st.currentPage + 1, net)
    ensures st.currentPage < 0 ==> r == st
  {
    if HasNextPage(st) then GoToPage(st, st.currentPage + 1, net) else st
  }

  /** `previousPage`: fetches the page before when there is one and it does not lie
      beyond the last page; otherwise it does nothing, even when a previous page is
      advertised. */
  function PreviousPage(st: SearchState, net: Network): (r: SearchState)
    ensures !HasPreviousPage(st) ==> r == st
    ensures HasPreviousPage(st) && st.currentPage - 1 <= st.totalPages ==>
              r == FetchMovies(st, st.searchQuery, st.currentPage - 1, net)
    ensures st.currentPage - 1 > st.totalPages ==> r == st
  {
    if HasPreviousPage(st) then GoToPage(st, st.currentPage - 1, net) else st
  }

  /** After a failed fetch the totals are zero, so no page can be reached: every
      navigation action is a no-op until a new search, although a store left on a
      page past the first still advertises a previous page. */
  lemma FailureStopsNavigation(st: SearchState, query: string, page: int, net: Network, next: Network, p: int)
    requires FetchMovies(st, query, page, net).error.Some?
    ensures GoToPage(FetchMovies(st, query, page, net), p, next) == FetchMovies(st, query, page, net)
    ensures NextPage(FetchMovies(st, query, page, net), next) == FetchMovies(st, query, page, net)
    ensures PreviousPage(FetchMovies(st, query, page, net), next) == FetchMovies(st, query, page, net)
    ensures st.currentPage > 1 ==> HasPreviousPage(FetchMovies(st, query, page, net))
  {
  }

  /** The stored query is always a sanitiser output: at most 200 UTF-16 code units
      and free of angle brackets. */
  predicate CleanQuery(st: SearchState) {
    Utf16Length(st.searchQuery) <= MaxInputLength && forall k :: 0 <= k < |st.searchQuery| ==> !IsAngle(st.searchQuery[k])
  }

  /** A fetch leaves a clean stored query behind: either the one it had, or a fresh
      sanitiser output. */
  lemma FetchKeepsQueryClean(st: SearchState, query: string, page: int, net: Network)
    requires CleanQuery(st)
    ensures CleanQuery(FetchMovies(st, query, page, net))
  {
    var r := FetchMovies(st, query, page, net);
    assert r.searchQuery == st.searchQuery || r.searchQuery == SanitizeInput(query);
  }

  lemma GoToKeepsQueryClean(st: SearchState, page: int, net: Network)
    requires CleanQuery(st)
    ensures CleanQuery(GoToPage(st, page, net))
  {
    FetchKeepsQueryClean(st, st.searchQuery, page, net);
  }

  /** Paging keeps the stored query clean. */
  lemma PagingKeepsQueryClean(st: SearchState, page: int, net: Network)
    requires CleanQuery(st)
    ensures CleanQuery(GoToPage(st, page, net))
    ensures CleanQuery(NextPage(st, net)) && CleanQuery(PreviousPage(st, net))
  {
    GoToKeepsQueryClean(st, page, net);
    GoToKeepsQueryClean(st, st.currentPage + 1, net);
    GoToKeepsQueryClean(st, st.currentPage - 1, net);
    assert NextPage(st, net) == st || NextPage(st, net) == GoToPage(st, st.currentPage + 1, net);
    assert PreviousPage(st, net) == st || PreviousPage(st, net) == GoToPage(st, st.currentPage - 1, net);
  }

  /** Every action keeps the stored query clean. */
  lemma CleanQueryInvariant(st: SearchState, query: string, page: int, net: Network)
    requires CleanQuery(st)
    ensures CleanQuery(SearchMoviesByTitle(st, query, net))
    ensures CleanQuery(GoToPage(st, page, net))
    ensures CleanQuery(NextPage(st, net)) && CleanQuery(PreviousPage(st, net))
    ensures CleanQuery(ClearError(st)) && CleanQuery(Reset(st))
  {
    FetchKeepsQueryClean(st.(currentPage := 1), query, 1, net);
    PagingKeepsQueryClean(st, page, net);
    assert Reset(st).searchQuery == [];
  }

  /** Paging re-sanitises the stored query, and the sanitiser is not idempotent: a
      search for "< a >" stores " a ", and the next page is then requested for "a". */
  lemma PagingResanitizes(st: SearchState, net: Network)
    ensures var first := SearchMoviesByTitle(st, "< a >", net);
            first.error.None? ==> first.searchQuery == " a " && SanitizeInput(first.searchQuery) == "a"
  {
    SanitizeOrderExample();
  }

  /** `clearError`: the error goes and nothing else changes. */
  function ClearError(st: SearchState): (r: SearchState)
    ensures !HasError(r)
    ensures r.(error := st.error) == st
  {
    st.(error := None)
  }

  /** `reset`: back to the initial state, except that the page size of the last
      response is kept.  Nothing is advertised afterwards, and resetting twice is
      resetting once. */
  function Reset(st: SearchState): (r: SearchState)
    ensures r.(perPage := InitialSearch.perPage) == InitialSearch
    ensures r.perPage == st.perPage
    ensures !HasMovies(r) && !HasError(r) && !HasNextPage(r) && !HasPreviousPage(r)
  {
    st.(movies := [], currentPage := 1, totalPages := 0, totalResults := 0,
        searchQuery := [], loading := false, error := None)
  }

  lemma ResetIdempotent(st: SearchState)
    ensures Reset(Reset(st)) == Reset(st)
  {
  }
}
