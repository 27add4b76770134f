/** Records shared by the stores and the API gateways of the movie search app,
    and the small Option/Result wrappers used for absent values and failures. */
module Types {

  /** A value that may be absent (`undefined` / `null` in the application). */
  datatype Option<+T> = None | Some(value: T) {
    function GetOr(default: T): T {
      match this
      case Some(v) => v
      case None => default
    }
  }

  /** The outcome of an operation that may throw: `Failure` carries what was thrown. */
  datatype Result<+T, +E> = Success(value: T) | Failure(error: E) {
    function ToOption(): Option<T> {
      match this
      case Success(v) => Some(v)
      case Failure(_) => None
    }
  }

  /** One row of a title search, optionally enriched with a poster URL
      (`MovieSearchResult` in the application: `Title`, `Year`, `imdbID`, `imageUrl?`). */
  datatype Movie = Movie(title: string, year: int, imdbId: string, imageUrl: Option<string>)

  /** A favourite: the search row it was made from plus the time it was added, in milliseconds. */
  datatype Favorite = Favorite(title: string, year: int, imdbId: string, imageUrl: Option<string>, addedAt: int) {
    /** The search row this favourite extends. */
    function AsMovie(): Movie {
      Movie(title, year, imdbId, imageUrl)
    }
  }

  /** Makes a favourite out of a search row by copying every field and stamping it. */
  function FavoriteOf(m: Movie, addedAt: int): (f: Favorite)
    ensures f.AsMovie() == m && f.addedAt == addedAt
  {
    Favorite(m.title, m.year, m.imdbId, m.imageUrl, addedAt)
  }

  /** The poster of a detail record. */
  datatype Image = Image(url: string)

  /** The part of a detail record (`ImdbMovie`) that the core reads; every other
      descriptive field is optional and only displayed. */
  datatype ImdbMovie = ImdbMovie(id: string, title: Option<string>, primaryImage: Option<Image>)

  /** One page of the title-search API. */
  datatype MoviesResponse = MoviesResponse(page: int, perPage: int, total: int, totalPages: int, data: seq<Movie>)

  /** The four orderings the filter panel offers. */
  datatype SortOption = TitleAsc | TitleDesc | YearAsc | YearDesc

  /** The wire name of a sort option. */
  function SortOptionName(o: SortOption): string {
    match o
    case TitleAsc => "title-asc"
    case TitleDesc => "title-desc"
    case YearAsc => "year-asc"
    case YearDesc => "year-desc"
  }
}
