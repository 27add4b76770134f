# Absolute Cinema: a Dafny model of the search, favourites and filter logic

Absolute Cinema is a Vue/Pinia front end for searching movies. It searches the
HackerRank movie API by title, enriches every result with a poster from an IMDb
detail service, keeps a persisted list of favourites, and filters and sorts lists
of titles by year range and sort option. This project models the application's
logic layer as pure Dafny functions over immutable records:

- `types.dfy` (`Types`): the records. A search row is `Movie`, a favourite is
  `Favorite`, a detail record is `ImdbMovie` and a search page is `MoviesResponse`.
  The module also holds the four sort options with their wire names, and the
  `Option`/`Result` wrappers.
- `http.dfy` (`Http`): how a request settles (`HttpOutcome`), the result of a
  runtime shape check (`Body`), the application's `ApiError`, and the
  status-to-message table both gateways share.
- `strings.dfy` (`Strings`) and `lists.dfy` (`Lists`): the JavaScript primitives
  the code relies on.
  - strings: `trim`, `startsWith`, `slice(0, n)`, and `localeCompare` as code-point order;
  - arrays: `filter`, and the stable `sort` as an insertion sort driven by the same three-way comparator.
- `validators.dfy` (`Validators`): `src/utils/validators.ts`.
- `filters.dfy` (`Filters`): the filter store, `src/stores/filters.ts`.
- `favorites.dfy` (`Favorites`): the favourites store, `src/stores/favorites.ts`.
  The state is the list of favourites, newest first.
- `imdb_api.dfy` (`ImdbApi`) and `movies_api.dfy` (`MoviesApi`): the two gateways,
  `src/api/imdb.ts` and `src/api/movies.ts`.
- `movies_store.dfy` (`MoviesStore`): the search store, `src/stores/movies.ts`.
- `movie_details_store.dfy` (`MovieDetailsStore`): the detail store,
  `src/stores/movieDetails.ts`.

The remote services are parameters. A service is a total function from the request it
receives to how that request finally settled:

- a 2xx body, seen through the shape check;
- an HTTP error status;
- no response at all.

Each store action is a function from the state before it to the state once its requests
have settled. The clock is also a parameter: `Date.now()` becomes `now`, and the
calendar year becomes `currentYear`. In the application `MAX_YEAR` reads the clock
once, when its module loads, while `isValidYear` reads it on every call; the model
passes one `currentYear` to both, so it does not model a year changing while the
application runs. The stores'
computed flags are predicates over the state: `hasMovies`, `hasError`, `hasNextPage`,
`hasPreviousPage`, `hasCurrentMovie`, `hasFavorites` and `favoriteIds`. Operations that
sort or filter a copy in the source (`applyFilters`, `getFavoritesSorted`) are pure
functions here, so the caller's list is untouched by construction.

## Model

| member | source | states |
|---|---|---|
| Types.FavoriteOf | src/stores/favorites.ts:35-38 | a favourite carries every field of the search row it was made from, plus the time it was added |
| Http.Classify | src/api/movies.ts:46-52 | the four status classes: exactly 404, exactly 429, 500 and above, and the rest |
| Http.StatusMessageIdentifiesClass | src/api/imdb.ts:49-57 | with distinct texts, two statuses get the same error message if and only if they fall in the same class |
| Http.ErrorText | src/stores/movies.ts:61 | a caught `ApiError` shows its own message; anything else shows the store's fallback |
| Strings.Trim | src/utils/validators.ts:10 | the result sits in the input at the leading-whitespace offset, everything cut on either side is whitespace, and it neither starts nor ends with whitespace |
| Strings.TrimEmptyIffBlank | src/utils/validators.ts:65 | trimming leaves nothing exactly when every character is whitespace |
| Strings.Utf16Length | src/utils/validators.ts:42 | `length` counts UTF-16 code units: between one and two per character |
| Strings.Utf16LengthAppend | src/utils/validators.ts:42 | the length of a concatenation is the sum of the lengths |
| Strings.SliceUnits | src/utils/validators.ts:12 | `slice(0, n)` is a prefix that fits in `n` code units, all of the string when it fits, and otherwise cut where the next character would not fit |
| Strings.SliceUnitsPlain | src/utils/validators.ts:12 | for text inside the Basic Multilingual Plane, length is the character count and the slice keeps the first `n` characters |
| Strings.SliceUnitsAstral | src/utils/validators.ts:12 | for text made of surrogate pairs, length is twice the character count and a slice of `2m` units keeps `m` characters |
| Strings.CompareStrings | src/stores/filters.ts:60-63 | the title comparison is -1, 0 or 1, and 0 exactly for equal titles |
| Strings.CompareStringsAntisymmetric | src/stores/filters.ts:60-63 | swapping the titles flips the sign of the comparison |
| Strings.CompareStringsTransitive | src/stores/filters.ts:60-63 | "sorts no later than" on titles is transitive |
| Lists.Filter | src/stores/filters.ts:52-55 | `filter` keeps each passing element as often as it occurs and drops every failing one |
| Lists.FilterAppend | src/stores/favorites.ts:44 | filtering distributes over concatenation, so the kept elements stay in their original order |
| Lists.FilterAllPass | src/stores/favorites.ts:44 | when every element passes, `filter` returns the list unchanged |
| Lists.SortBy | src/stores/filters.ts:58-71 | `sort` returns a permutation of its input |
| Lists.SortBySorted | src/stores/filters.ts:58-71 | with a consistent comparator, `sort` leaves every pair in comparator order |
| Lists.SortByStable | src/stores/filters.ts:58-71 | `sort` is stable: for every element, the elements tying with it keep their input order |
| Lists.SortedUnique | src/stores/filters.ts:58-71 | two arrangements of the same elements, both sorted by a consistent comparator without ties, are equal |
| Lists.SortByReversed | src/stores/filters.ts:58-71 | without ties, sorting with the operands of the comparator swapped gives the sorted result reversed |
| Validators.StripAngles | src/utils/validators.ts:11 | `replace(/[<>]/g, '')` removes every angle bracket and keeps every other character as often as it occurs |
| Validators.StripAnglesKeepsClean | src/utils/validators.ts:11 | text without brackets passes the bracket removal unchanged |
| Validators.StripAnglesAppend | src/utils/validators.ts:11 | bracket removal works piecewise on a concatenation, so the kept characters stay in order |
| Validators.SanitizeInput | src/utils/validators.ts:8-13 | the sanitised query is bracket-free and at most 200 UTF-16 code units long; it is a prefix of the trimmed, bracket-free input; it is all of that input when it fits in 200 units, and otherwise 200 units long, or 199 when the character at the cut is a surrogate pair |
| Validators.SanitizeTruncatesPlainInput | src/utils/validators.ts:12 | clean input of 200 or more characters, all inside the Basic Multilingual Plane, is cut to exactly its first 200 |
| Validators.SanitizeAstralExample | src/utils/validators.ts:12 | 150 emoji take 300 code units, so only the first 100 emoji survive |
| Validators.SanitizeLongQueryExample | src/utils/__tests__/validators.test.ts:29-30 | 300 copies of 'a' sanitise to 200 characters |
| Validators.TrimKeepsTight | src/utils/validators.ts:10 | a string that neither starts nor ends with whitespace is its own trim |
| Validators.StripTagged | src/utils/validators.ts:11 | an opening and a closing tag around bracket-free text lose exactly their two brackets each |
| Validators.SanitizeTagged | src/utils/validators.ts:8-13 | bracket-free text between two tags, at most 200 code units so that it is not cut, sanitises to the texts joined |
| Validators.SanitizeTagExample | src/utils/__tests__/validators.test.ts:25 | "<div>test</div>" sanitises to "divtest/div" |
| Validators.SanitizeOrderExample | src/utils/validators.ts:9-12 | trimming runs before bracket removal, so "< a >" sanitises to " a ", which sanitises to "a"; the sanitiser is not idempotent |
| Validators.IsValidImdbId | src/utils/validators.ts:18-20 | accepted exactly when the id is "tt" followed by seven or more decimal digits and nothing else |
| Validators.ImdbIdFromDigits | src/utils/validators.ts:18-20 | "tt" followed by seven or more digits is accepted |
| Validators.ImdbIdAcceptedExamples | src/utils/__tests__/validators.test.ts:35-37 | the ids the unit tests accept |
| Validators.ImdbIdRejectedExamples | src/utils/__tests__/validators.test.ts:41-44 | the ids the unit tests reject, "tt123" among them |
| Validators.IsValidYear | src/utils/validators.ts:25-28 | accepted exactly for the years from 1900 to five years past the current one |
| Validators.IsValidPage | src/utils/validators.ts:33-35 | accepted exactly for pages 1 and up |
| Validators.IsValidSearchQuery | src/utils/validators.ts:40-43 | every query is accepted, because the sanitiser already caps the length in code units |
| Validators.IsNonEmptyString | src/utils/validators.ts:64-66 | accepted exactly for a string with at least one non-whitespace character |
| Validators.IsValidSortOption | src/utils/validators.ts:71-75 | accepted exactly for the wire name of one of the four sort options |
| Validators.ParseSortOption | src/utils/validators.ts:71-75 | the type guard narrows to the option whose wire name it is given, and fails exactly when the check fails |
| Validators.SortOptionRoundTrip | src/utils/validators.ts:71-75 | every option survives the trip to its wire name and back |
| Filters.InitialFilters | src/stores/filters.ts:16-17 | the store starts on title order and the range from 1900 to next year, with no active filter |
| Filters.ActiveIffNotInitial | src/stores/filters.ts:21-27 | filters are active exactly when the state differs from the initial one |
| Filters.SetSortBy | src/stores/filters.ts:30-32 | only the sort option changes |
| Filters.SetSortByActivity | src/stores/filters.ts:21-32 | after a sort change the filters are active exactly when the option is not title-asc or the range is not the full one, and the filtered list is in the new option's order |
| Filters.SetYearRange | src/stores/filters.ts:34-39 | each bound is clamped into [1900, next year] independently: kept when inside, replaced by the limit when outside; the sort option is untouched |
| Filters.SetYearRangeIdempotent | src/stores/filters.ts:34-39 | setting the stored range again changes nothing |
| Filters.ClearFilters | src/stores/filters.ts:41-44 | clearing returns to the initial state, with no active filter |
| Filters.ClampedYearsAreValid | src/stores/filters.ts:34-39 | every year inside a stored range passes `isValidYear` |
| Filters.ComparatorConsistent | src/stores/filters.ts:58-71 | each of the four sort comparators is antisymmetric in sign and transitive |
| Filters.ApplyFilters | src/stores/filters.ts:46-74 | the result is a permutation of the items in the year range; every result year lies in the range; an inverted range gives nothing |
| Filters.ApplyFiltersKeepsInRange | src/stores/filters.ts:52-55 | every item in range is kept, as often as it occurs |
| Filters.SetYearRangeMayInvert | src/stores/filters.ts:34-55 | the setter stores an inverted range such as 2010 to 2000 as given, and filtering with it keeps nothing |
| Filters.ApplyFiltersOrdered | src/stores/filters.ts:58-71 | the result is in the selected order, and tied items keep their input order |
| Filters.TitleDescReversesAsc | src/stores/filters.ts:60-63 | when no two different items share a title, title-descending output is title-ascending output reversed |
| Filters.YearDescReversesAsc | src/stores/filters.ts:64-67 | when no two different items share a year, year-descending output is year-ascending output reversed |
| Filters.TitleAscendingOrder | src/stores/filters.ts:60-61 | title-ascending results are in title order |
| Filters.MinYearOf | src/stores/filters.ts:84 | `Math.min` of the years is a lower bound that some item attains |
| Filters.MaxYearOf | src/stores/filters.ts:84 | `Math.max` of the years is an upper bound that some item attains |
| Filters.GetYearRangeFromMovies | src/stores/filters.ts:76-85 | an empty list gives the default range; otherwise every year lies in the range and both ends are attained |
| Filters.DerivedRangeKeepsAll | src/stores/filters.ts:76-85 | filtering a list by the range derived from it keeps every item |
| Filters.YearRangeExample | src/stores/__tests__/filters.test.ts:135-144 | years 1990, 2000 and 2020 give the range [1990, 2020] |
| Favorites.FavoriteIds | src/stores/favorites.ts:23-25 | the id set holds exactly the ids of the favourites |
| Favorites.DistinctIdsCount | src/stores/favorites.ts:21-25 | with unique ids there are as many ids as favourites |
| Favorites.FavoriteCount | src/stores/favorites.ts:21 | with unique ids the count is the number of distinct favourite ids |
| Favorites.AddFavorite | src/stores/favorites.ts:32-41 | a repeat add changes nothing; a new movie goes to the front, stamped with the time, ahead of the unchanged old list; afterwards the id is a favourite; unique ids stay unique |
| Favorites.AddTwiceCountsOnce | src/stores/favorites.ts:32-33 | adding the same movie twice equals adding it once |
| Favorites.RemoveFavorite | src/stores/favorites.ts:43-45 | afterwards the id is no favourite; every other entry is kept as often as it occurred; every other id keeps its membership; unique ids stay unique |
| Favorites.RemoveFavoriteInOrder | src/stores/favorites.ts:43-45 | removal drops a single entry exactly when it has the id, and distributes over concatenation, so the kept entries stay in ledger order |
| Favorites.FilterKeepsUnique | src/stores/favorites.ts:44 | filtering a list with unique ids keeps them unique |
| Favorites.RemoveUndoesAdd | src/stores/favorites.ts:32-45 | removing a movie just added to a list that lacked it restores the list |
| Favorites.ToggleFavorite | src/stores/favorites.ts:47-53 | the movie's membership flips; every other id keeps its membership; unique ids stay unique |
| Favorites.ToggleTwiceRestoresMembership | src/stores/favorites.ts:47-53 | two toggles restore every id's membership |
| Favorites.ClearFavorites | src/stores/favorites.ts:55-57 | afterwards the count is 0, no id is a favourite, and ids are trivially unique |
| Favorites.GetFavorite | src/stores/favorites.ts:59-61 | a favourite is found exactly when the id is one; it is the first entry with that id, as `find` returns; with unique ids it is the only one |
| Favorites.GetFavoritesByYear | src/stores/favorites.ts:63-65 | exactly the favourites of that year, each as often as it occurs |
| Favorites.FavoritesByYearInOrder | src/stores/favorites.ts:63-65 | selection keeps a single entry exactly when it is from that year, and distributes over concatenation, so the result is in ledger order |
| Favorites.GetFavoritesSorted | src/stores/favorites.ts:67-90 | the sorted view is a permutation of the list; the order defaults to ascending |
| Favorites.FavoriteComparatorConsistent | src/stores/favorites.ts:71-87 | every key and direction gives a consistent comparator |
| Favorites.FavoritesSortedOrdered | src/stores/favorites.ts:67-90 | the sorted view is in the chosen key and direction, and ties keep their list order |
| Favorites.DescendingIsSwapped | src/stores/favorites.ts:71-87 | for every key, the descending comparison of two favourites is the ascending one with the favourites swapped |
| Favorites.FavoritesDescReversesAsc | src/stores/favorites.ts:67-90 | when no two different favourites tie on the key, the descending view is the default ascending view reversed |
| Favorites.FavoritesByYearAscending | src/stores/favorites.ts:78-80 | sorted by year ascending, earlier years come first |
| ImdbApi.GetMovieDetails | src/api/imdb.ts:17-69 | success exactly for an id passing the pre-check and a shaped reply without an error message, and then that record; otherwise an error naming the first failure, in the source's order |
| ImdbApi.DetailsMessageIdentifiesClass | src/api/imdb.ts:49-57 | two HTTP failures of the detail gateway get the same message exactly when their statuses fall in the same class |
| ImdbApi.DetailsStatusCode | src/api/imdb.ts:27-60 | a failure carries a status code exactly for an HTTP error or an in-body error message; an in-body message is reported as a 404 |
| ImdbApi.IdCheckWeakerThanValidation | src/api/imdb.ts:20-22 | every well-formed IMDb id passes the pre-check, but "tt123" passes it without being well-formed |
| ImdbApi.BadIdIgnoresService | src/api/imdb.ts:20-22 | an id failing the pre-check gets the same error whatever the service would answer |
| ImdbApi.GetMultipleMovieDetails | src/api/imdb.ts:76-88 | one slot per id, in order; a slot holds the record exactly when the single lookup succeeds |
| ImdbApi.MultipleAppend | src/api/imdb.ts:79-87 | a batch for two id lists is the two batches side by side |
| ImdbApi.MultipleOffline | src/api/imdb.ts:79-85 | with the service unreachable, every slot is empty |
| MoviesApi.PageOrDefault | src/api/movies.ts:28 | a missing page and page 0 both become page 1; any other page is kept |
| MoviesApi.RequestFor | src/api/movies.ts:26-33 | the request carries the title as given and the defaulted page |
| MoviesApi.SearchMovies | src/api/movies.ts:22-64 | success exactly for a shaped reply, and then that body; an HTTP status becomes its message with the code; no response becomes the network error; a wrong shape becomes the format error |
| MoviesApi.SearchMessageIdentifiesClass | src/api/movies.ts:44-52 | two HTTP failures of the search gateway get the same message exactly when their statuses fall in the same class |
| MoviesApi.SearchFailureKinds | src/api/movies.ts:36-62 | a failure carries one of six messages, and a status code exactly for an HTTP error |
| MoviesApi.GetAllMovies | src/api/movies.ts:71-73 | listing everything is the empty-title search for every page argument, a missing one included |
| MoviesApi.FalsyPagesAgree | src/api/movies.ts:28 | a missing page, page 0 and page 1 send the same request |
| MoviesStore.IdsOf | src/stores/movies.ts:46 | the ids of a page, one per row and in order |
| MoviesStore.MergeImages | src/stores/movies.ts:50-53 | every row keeps its title, year and id; it gets a poster exactly when its detail slot has a record with a non-empty image URL, and then that URL |
| MoviesStore.SearchFor | src/stores/movies.ts:38-43 | the search branch and the list-everything branch send the same request |
| MoviesStore.FetchMovies | src/stores/movies.ts:32-68 | the page defaults to 1; loading ends; the error is cleared exactly when the search succeeds. On success the page, totals and sanitised query are taken over and the rows get posters; on failure results and totals are emptied, the rest is kept and the gateway's message is shown |
| MoviesStore.FetchErrorIsSearchMessage | src/stores/movies.ts:60-61 | every error a fetch shows is a search-gateway message, never the store's fallback text |
| MoviesStore.DetailsOnlyAffectPosters | src/stores/movies.ts:45-53 | with the same search service, the detail service changes nothing but posters |
| MoviesStore.OfflineDetailsGiveNoPosters | src/stores/movies.ts:45-53 | with the detail service unreachable, no row has a poster |
| MoviesStore.SearchMoviesByTitle | src/stores/movies.ts:70-73 | a failed search leaves the store on page 1; a successful one on the page the service reports |
| MoviesStore.GoToPage | src/stores/movies.ts:75-80 | a page below 1 or past the last page is ignored; any other page is fetched for the stored query |
| MoviesStore.NextPage | src/stores/movies.ts:82-86 | without a next page nothing happens; with a next page and a current page of at least 0 the following page is fetched; with a negative current page nothing happens, even when a next page is advertised |
| MoviesStore.PreviousPage | src/stores/movies.ts:88-92 | without a previous page, or when it lies past the last page, nothing happens; otherwise the page before is fetched |
| MoviesStore.FailureStopsNavigation | src/stores/movies.ts:60-92 | after a failed fetch every navigation action is a no-op, although a store past page 1 still advertises a previous page |
| MoviesStore.FetchKeepsQueryClean | src/stores/movies.ts:37-59 | a fetch leaves a stored query that is bracket-free and at most 200 code units long |
| MoviesStore.PagingKeepsQueryClean | src/stores/movies.ts:75-92 | going to a page, the next page or the previous page keeps the stored query clean |
| MoviesStore.CleanQueryInvariant | src/stores/movies.ts:70-106 | every other action keeps the stored query bracket-free and at most 200 code units long |
| MoviesStore.PagingResanitizes | src/stores/movies.ts:37-79 | searching "< a >" stores " a ", and paging sanitises that again to "a" |
| MoviesStore.ClearError | src/stores/movies.ts:94-96 | the error goes and nothing else changes |
| MoviesStore.Reset | src/stores/movies.ts:98-106 | back to the initial state except the page size; nothing is advertised afterwards |
| MoviesStore.ResetIdempotent | src/stores/movies.ts:98-106 | resetting twice is resetting once |
| MovieDetailsStore.FetchMovieDetails | src/stores/movieDetails.ts:24-49 | refresh defaults to off; a cache hit without refresh changes only the record on display. A fetch caches, displays and returns the record on success; on failure it keeps the cache, displays nothing, shows the message and re-throws. No entry is ever lost |
| MovieDetailsStore.ReturnedIsDisplayed | src/stores/movieDetails.ts:26-41 | a record is on display exactly when the fetch returned one, and it is that record |
| MovieDetailsStore.GetMovieFromCache | src/stores/movieDetails.ts:51-53 | found exactly when the id is cached, and then the cached record |
| MovieDetailsStore.SecondFetchServedFromCache | src/stores/movieDetails.ts:26-38 | after a successful fetch a second one without refresh returns the same record, whatever the service now answers |
| MovieDetailsStore.CacheStaysFaithful | src/stores/movieDetails.ts:26-41 | against a consistent service, fetching keeps every cached record equal to the service's answer, and a cache hit returns what a forced refresh would |
| MovieDetailsStore.CacheHitKeepsError | src/stores/movieDetails.ts:26-29 | a cache hit leaves an earlier error and the loading flag as they were |
| MovieDetailsStore.ClearCurrentMovie | src/stores/movieDetails.ts:55-58 | nothing on display and no error; the cache is kept |
| MovieDetailsStore.ClearError | src/stores/movieDetails.ts:60-62 | the error goes and nothing else changes |
| MovieDetailsStore.ClearCache | src/stores/movieDetails.ts:64-66 | every id misses the cache afterwards and nothing else changes |
| MovieDetailsStore.CacheFaithfulInvariant | src/stores/movieDetails.ts:24-66 | against a consistent service, fetching, clearing the current movie, clearing the error and clearing the cache all keep every cached record equal to the service's answer |
| MovieDetailsStore.ClearedCacheFetches | src/stores/movieDetails.ts:64-66 | after clearing, a fetch without refresh gives what a forced refresh gives |

## Left out

- The HTTP client's timeout, retries and error hook are not modelled. Each request is the single outcome it finally settles on.
- The Zod schemas behind `isImdbMovie` and `isMoviesApiResponse` are not modelled. They appear only as a body that either has the expected shape or not. `src/api/types.ts` as given does not define these two guards.
- `ImdbMovie` keeps only the fields the logic reads: id, title and primary image. Every other descriptive field is only displayed.
- `parseWithSchema` is not modelled, because no core function calls it.
- Persistence to local storage is not modelled: the `useLocalStorage` binding and `safeJsonParse`. The favourites list is the whole state.
- Concurrency is not modelled. Each action runs to completion before the next one, so responses that arrive out of order or are stale are not modelled.
- The intermediate `loading = true` state is not modelled, because each action is seen only once it has settled.
- `activeFiltersCount` in the filter store is not modelled: no action ever changes it from 0.
- `ApiError.response`, the raw reply attached to errors, is not modelled: nothing reads it.
- The `default: return 0` branch of the filter comparator is not modelled: the sort option type has no fifth value.
- Validators.IsValidPage: covers integer pages only; the rejection of fractional and non-numeric pages by `Number.isInteger` is not modelled.
- Strings.Trim: whitespace is the ASCII layout characters. The Unicode spaces and line terminators that `trim` also removes are left out.
- Strings.CompareStrings: `localeCompare` is modelled as code-point order. Locale collation, accents and case folding are left out. The sorting proofs rely on the order being antisymmetric and transitive; `Filters.TitleDescReversesAsc` also relies on two titles comparing equal only when they are the same string, which `localeCompare` does not promise for distinct but canonically equivalent strings.
- Lists.Filter: the contract states element counts. Order is stated separately by `Lists.FilterAppend`.
- Favorites.FavoriteCount: the count equals the number of distinct ids only for lists with unique ids. Every action keeps ids unique, but a list loaded from storage need not have them.
- ImdbApi.GetMovieDetails: `errorMessage` is taken to be a string. `String(...)` on any other value is not modelled.
- Strings.SliceUnits: when the last unit that fits is the first half of a surrogate pair, `slice` keeps that lone half. A Dafny `char` cannot hold half a pair, so the model drops the whole character and ends one unit short.
- Validators.SanitizeInput: the case where the cut falls inside a surrogate pair is modelled as `Strings.SliceUnits` models it. The sanitised query is then one unit shorter than the application's, and it lacks the lone surrogate.
- Strings are sequences of Unicode scalar values, so input strings are taken to be well-formed UTF-16. A lone surrogate already present in a JavaScript string cannot be represented.
- Non-integer and NaN years and pages are not modelled: all numbers are integers.
