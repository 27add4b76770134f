/** The detail store of `src/stores/movieDetails.ts`: the record on display and a
    cache of every record fetched so far, keyed by IMDb id. */
module MovieDetailsStore {
  import opened Types
  import opened Http
  import opened ImdbApi

  /** The store's state. */
  datatype DetailsState = DetailsState(
    cache: map<string, ImdbMovie>,
    currentMovie: Option<ImdbMovie>,
    loading: bool,
    error: Option<string>)

  const InitialDetails := DetailsState(map[], None, false, None)

  /** The text shown for a failure that is not an `ApiError`. */
  const LoadFailedMessage := "Failed to load movie details"

  /** What `fetchMovieDetails` leaves behind: the new state, and the record it returns
      or what it re-throws. */
  datatype Fetched = Fetched(state: DetailsState, result: Result<ImdbMovie, Thrown>)

  predicate HasCurrentMovie(st: DetailsState) {
    st.currentMovie.Some?
  }

  predicate HasError(st: DetailsState) {
    st.error.Some?
  }

  /** `fetchMovieDetails`; a refresh is not forced by default.  Unless a refresh is forced, a cached id is answered from
      the cache without a request, and only the record on display changes.  Otherwise
      the record is fetched: on success it is cached under the id, displayed and
      returned; on failure nothing is displayed, the cache is kept, the gateway's
      message is shown and the error is re-thrown.  The cache never loses an entry. */
  function FetchMovieDetails(st: DetailsState, id: string, forceRefresh: bool := false, api: ImdbEndpoint): (r: Fetched)
    ensures st.cache.Keys <= r.state.cache.Keys
    ensures forall k :: k in st.cache && k != id ==> r.state.cache[k] == st.cache[k]
    ensures !forceRefresh && id in st.cache ==>
              r.result == Success(st.cache[id]) && r.state == st.(currentMovie := Some(st.cache[id]))
    ensures (forceRefresh || id !in st.cache) ==>
              && !r.state.loading
              && (r.result.Success? <==> GetMovieDetails(id, api).Success?)
              && (r.result.Success? ==>
                    && r.result.value == GetMovieDetails(id, api).value
                    && r.state.cache == st.cache[id := r.result.value]
                    && r.state.currentMovie == Some(r.result.value)
                    && r.state.error.None?)
              && (r.result.Failure? ==>
                    && r.result.error == ApiThrown(GetMovieDetails(id, api).error)
                    && r.state.cache == st.cache
                    && r.state.currentMovie.None?
                    && r.state.error == Some(GetMovieDetails(id, api).error.message))
  {
    if !forceRefresh && id in st.cache then
      var st' := st.(currentMovie := Some(st.cache[id]));
      Fetched(st', Success(st.cache[id]))
    else
      var started := st.(loading := true, error := None);
      match GetMovieDetails(id, api)
      case Success(details) =>
        Fetched(started.(cache := st.cache[id := details], currentMovie := Some(details), loading := false),
                Success(details))
      case Failure(e) =>
        Fetched(started.(error := Some(ErrorText(ApiThrown(e), LoadFailedMessage)), currentMovie := None,
                         loading := false),
                Failure(ApiThrown(e)))
  }

  /** Whenever a fetch returns a record, that record is the one on display. */
  lemma ReturnedIsDisplayed(st: DetailsState, id: string, forceRefresh: bool, api: ImdbEndpoint)
    ensures FetchMovieDetails(st, id, forceRefresh, api).result.Success?
        <==> FetchMovieDetails(st, id, forceRefresh, api).state.currentMovie.Some?
    ensures FetchMovieDetails(st, id, forceRefresh, api).result.Success? ==>
              FetchMovieDetails(st, id, forceRefresh, api).state.currentMovie
              == Some(FetchMovieDetails(st, id, forceRefresh, api).result.value)
  {
  }

  /** `getMovieFromCache`. */
  function GetMovieFromCache(st: DetailsState, id: string): (r: Option<ImdbMovie>)
    ensures r.Some? <==> id in st.cache
    ensures r.Some? ==> r.value == st.cache[id]
  {
    if id in st.cache then Some(st.cache[id]) else None
  }

  /** After a successful fetch the record is cached, and a second fetch without a
      refresh returns the same record whatever the service now answers. */
  lemma SecondFetchServedFromCache(st: DetailsState, id: string, forceRefresh: bool, api: ImdbEndpoint, later: ImdbEndpoint)
    requires FetchMovieDetails(st, id, forceRefresh, api).result.Success?
    ensures GetMovieFromCache(FetchMovieDetails(st, id, forceRefresh, api).state, id)
         == Some(FetchMovieDetails(st, id, forceRefresh, api).result.value)
    ensures FetchMovieDetails(FetchMovieDetails(st, id, forceRefresh, api).state, id, false, later).result
         == FetchMovieDetails(st, id, forceRefresh, api).result
  {
  }

  /** Every cached record is what the service gives for its id. */
  ghost predicate CacheFaithful(cache: map<string, ImdbMovie>, api: ImdbEndpoint) {
    forall k :: k in cache ==> GetMovieDetails(k, api) == Success(cache[k])
  }

  /** Against a service that answers consistently, fetching keeps the cache faithful,
      and answering from the cache returns exactly what a forced refresh would. */
  lemma CacheStaysFaithful(st: DetailsState, id: string, forceRefresh: bool, api: ImdbEndpoint)
    requires CacheFaithful(st.cache, api)
    ensures CacheFaithful(FetchMovieDetails(st, id, forceRefresh, api).state.cache, api)
    ensures FetchMovieDetails(st, id, false, api).result == FetchMovieDetails(st, id, true, api).result
  {
    var r := FetchMovieDetails(st, id, forceRefresh, api);
    forall k | k in r.state.cache
      ensures GetMovieDetails(k, api) == Success(r.state.cache[k])
    {
      if k != id {
        assert k in st.cache;
      }
    }
  }

  /** A cache hit leaves the loading flag and an earlier error as they were. */
  lemma CacheHitKeepsError(st: DetailsState, id: string, api: ImdbEndpoint)
    requires id in st.cache
    ensures FetchMovieDetails(st, id, false, api).state.error == st.error
    ensures FetchMovieDetails(st, id, false, api).state.loading == st.loading
  {
  }

  /** `clearCurrentMovie`: nothing on display and no error; the cache is kept. */
  function ClearCurrentMovie(st: DetailsState): (r: DetailsState)
    ensures !HasCurrentMovie(r) && !HasError(r)
    ensures r.cache == st.cache && r.loading == st.loading
  {
    st.(currentMovie := None, error := None)
  }

  /** `clearError`: the error goes and nothing else changes. */
  function ClearError(st: DetailsState): (r: DetailsState)
    ensures !HasError(r)
    ensures r.(error := st.error) == st
  {
    st.(error := None)
  }

  /** `clearCache`: every id misses the cache afterwards; nothing else changes. */
  function ClearCache(st: DetailsState): (r: DetailsState)
    ensures forall id :: GetMovieFromCache(r, id).None?
    ensures r.(cache := st.cache) == st
  {
    st.(cache := map[])
  }

  /** Against a consistent service, every action of the store keeps the cache
      faithful: a fetch, and each of the three clearing actions. */
  lemma CacheFaithfulInvariant(st: DetailsState, id: string, forceRefresh: bool, api: ImdbEndpoint)
    requires CacheFaithful(st.cache, api)
    ensures CacheFaithful(FetchMovieDetails(st, id, forceRefresh, api).state.cache, api)
    ensures CacheFaithful(ClearCurrentMovie(st).cache, api)
    ensures CacheFaithful(ClearError(st).cache, api)
    ensures CacheFaithful(ClearCache(st).cache, api)
  {
    CacheStaysFaithful(st, id, forceRefresh, api);
  }

  /** After the cache is cleared, the next fetch of any id goes to the service. */
  lemma ClearedCacheFetches(st: DetailsState, id: string, api: ImdbEndpoint)
    ensures FetchMovieDetails(ClearCache(st), id, false, api).result
         == FetchMovieDetails(ClearCache(st), id, true, api).result
  {
  }
}
