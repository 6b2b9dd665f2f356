/**
 * Model of the movie-pool fetcher of the movie-night picker (src/lib/tmdb.ts).
 *
 * `fetchMoviePool(count)` asks the TMDB "popular movies" listing for
 * ceil(count / 20) pages, one after the other, fails on the first response
 * that is not OK, and turns the accumulated catalogue movies into insert
 * records for a room: keep the first `count`, drop those without a poster
 * or an overview, and map the rest (poster URL, genre names, rounded rating).
 *
 * The network is a parameter: `catalog(n)` is the answer the server gives
 * to the request for page `n`.
 */
module Tmdb {

  datatype Option<+T> = None | Some(value: T)

  datatype Result<+T, +E> = Ok(value: T) | Err(error: E)

  /** The listing endpoint returns this many movies per page. */
  const PAGE_SIZE: int := 20

  /** Base URL that a catalogue poster path is appended to. */
  const IMG_BASE: string := "https://image.tmdb.org/t/p/w500"

  /** The fixed table of TMDB genre ids and their display names. */
  const GENRE_MAP: map<int, string> := map[
    28 := "Action",
    12 := "Adventure",
    16 := "Animation",
    35 := "Comedy",
    80 := "Crime",
    99 := "Documentary",
    18 := "Drama",
    10751 := "Family",
    14 := "Fantasy",
    36 := "History",
    27 := "Horror",
    10402 := "Music",
    9648 := "Mystery",
    10749 := "Romance",
    878 := "Sci-Fi",
    10770 := "TV Movie",
    53 := "Thriller",
    10752 := "War",
    37 := "Western"
  ]

  /** A movie as the catalogue lists it; `posterPath` may be null. */
  datatype TmdbMovie = TmdbMovie(
    id: int,
    title: string,
    posterPath: Option<string>,
    overview: string,
    genreIds: seq<int>,
    voteAverage: real)

  /** A room movie without its id, room id and display order. */
  datatype MovieInsert = MovieInsert(
    tmdbId: int,
    title: string,
    posterUrl: string,
    overview: string,
    genres: seq<string>,
    voteAverage: real)

  /** What a page request yields: an HTTP response, or a failure of `fetch` itself. */
  datatype PageResponse = Response(status: int, results: seq<TmdbMovie>) | TransportFailure

  /** Why `fetchMoviePool` fails. */
  datatype FetchError = HttpError(status: int) | TransportError

  /** `res.ok`: a response whose status is in the range 200-299. */
  predicate Succeeded(res: PageResponse) {
    res.Response? && 200 <= res.status <= 299
  }

  /** The error a failed page request raises. */
  function ErrorOf(res: PageResponse): (e: FetchError)
    requires !Succeeded(res)
    ensures e.HttpError? <==> res.Response?
    ensures e.HttpError? ==> e.status == res.status && !(200 <= e.status <= 299)
  {
    if res.TransportFailure? then TransportError else HttpError(res.status)
  }

  /** The movies a page contributes (none if it has no results). */
  function ResultsOf(res: PageResponse): seq<TmdbMovie> {
    if res.Response? then res.results else []
  }

  function Min(a: int, b: int): int { if a <= b then a else b }

  function Max(a: int, b: int): int { if a <= b then b else a }

  // ---------------------------------------------------------------------
  // Paging
  // ---------------------------------------------------------------------

  /** `Math.ceil(count / 20)`: the least page count whose pages hold `count` movies. */
  function PageCount(count: int): (pages: int)
    ensures (pages - 1) * PAGE_SIZE < count <= pages * PAGE_SIZE
    ensures pages <= 0 <==> count <= 0
  {
    -((-count) / PAGE_SIZE)
  }

  /** Concatenation of a sequence of lists, first list first. */
  function Concat<T>(lists: seq<seq<T>>): seq<T> {
    if lists == [] then [] else lists[0] + Concat(lists[1..])
  }

  /** The result lists of pages 1..n, in page order. */
  function PageResults(catalog: int -> PageResponse, n: nat): (lists: seq<seq<TmdbMovie>>)
    ensures |lists| == n
  {
    seq(n, i => ResultsOf(catalog(i + 1)))
  }

  /** Every request for a page in 1..n succeeds. */
  predicate AllSucceed(catalog: int -> PageResponse, n: int) {
    forall p :: 1 <= p <= n ==> Succeeded(catalog(p))
  }

  /**
   * The outcome of requesting pages 1..n in order: the first failing page's
   * error, or the results of all pages appended in page order.
   */
  function Fetched(catalog: int -> PageResponse, n: int): Result<seq<TmdbMovie>, FetchError>
    decreases n
  {
    if n < 1 then Ok([])
    else
      match Fetched(catalog, n - 1)
      case Err(e) => Err(e)
      case Ok(movies) =>
        var res := catalog(n);
        if Succeeded(res) then Ok(movies + res.results) else Err(ErrorOf(res))
  }

  // ---------------------------------------------------------------------
  // Normalising pipeline
  // ---------------------------------------------------------------------

  /** `s.slice(0, end)` of JavaScript: a negative end counts from the back. */
  function SliceTo<T>(s: seq<T>, end: int): (r: seq<T>)
    ensures |r| <= |s| && r == s[..|r|]
    ensures 0 <= end ==> |r| == Min(end, |s|)
    ensures end < 0 ==> |r| == Max(|s| + end, 0)
  {
    if 0 <= end then s[..Min(end, |s|)]
    else s[..Max(|s| + end, 0)]
  }

  /** `m.poster_path && m.overview`: a non-null, non-empty poster path and a non-empty overview. */
  predicate Displayable(m: TmdbMovie) {
    m.posterPath.Some? && m.posterPath.value != "" && m.overview != ""
  }

  /** `.filter(m => m.poster_path && m.overview)`. */
  function KeepDisplayable(s: seq<TmdbMovie>): (r: seq<TmdbMovie>)
    ensures |r| <= |s|
    ensures forall i :: 0 <= i < |r| ==> Displayable(r[i])
    decreases |s|
  {
    if s == [] then []
    else
      var last := s[|s| - 1];
      KeepDisplayable(s[..|s| - 1]) + (if Displayable(last) then [last] else [])
  }

  /** The positions in `s` of the movies that KeepDisplayable keeps, in order. */
  ghost function KeptIndices(s: seq<TmdbMovie>): seq<nat>
    decreases |s|
  {
    if s == [] then []
    else KeptIndices(s[..|s| - 1]) + (if Displayable(s[|s| - 1]) then [|s| - 1] else [])
  }

  /** `GENRE_MAP[id]`: a name, or undefined when the id is not in the table. */
  function Lookup(id: int): (name: Option<string>)
    ensures name.Some? <==> id in GENRE_MAP
    ensures name.Some? ==> name.value == GENRE_MAP[id]
    ensures name.Some? ==> name.value in GENRE_MAP.Values && name.value != ""
  {
    if id in GENRE_MAP then Some(GENRE_MAP[id]) else None
  }

  /** `Boolean(x)` for a looked-up genre name. */
  predicate Truthy(name: Option<string>) {
    name.Some? && name.value != ""
  }

  /** `genre_ids.map(id => GENRE_MAP[id]).filter(Boolean)`. */
  function ResolveGenres(ids: seq<int>): (names: seq<string>)
    ensures |names| <= |ids|
    ensures forall n <- names :: n in GENRE_MAP.Values
    decreases |ids|
  {
    if ids == [] then []
    else
      var name := Lookup(ids[0]);
      (if Truthy(name) then [name.value] else []) + ResolveGenres(ids[1..])
  }

  /** `Math.round(v * 10) / 10`, on exact reals: `Math.round` rounds halves up. */
  function RoundToTenth(v: real): (r: real)
    ensures (r * 10.0).Floor as real == r * 10.0
    ensures v - 0.05 < r <= v + 0.05
  {
    (v * 10.0 + 0.5).Floor as real / 10.0
  }

  /** The insert record built from a catalogue movie that has a poster path. */
  function ToInsert(m: TmdbMovie): (r: MovieInsert)
    requires m.posterPath.Some?
    ensures r.tmdbId == m.id && r.title == m.title && r.overview == m.overview
    ensures r.posterUrl == IMG_BASE + m.posterPath.value
    ensures m.posterPath.value != "" ==> |r.posterUrl| > |IMG_BASE|
    ensures r.genres == ResolveGenres(m.genreIds)
    ensures r.voteAverage == RoundToTenth(m.voteAverage)
  {
    MovieInsert(
      m.id,
      m.title,
      IMG_BASE + m.posterPath.value,
      m.overview,
      ResolveGenres(m.genreIds),
      RoundToTenth(m.voteAverage))
  }

  /** `.map(...)` over the displayable movies. */
  function ToInserts(s: seq<TmdbMovie>): (r: seq<MovieInsert>)
    requires forall i :: 0 <= i < |s| ==> Displayable(s[i])
    ensures |r| == |s|
    ensures forall i :: 0 <= i < |s| ==> Displayable(s[i]) && r[i] == ToInsert(s[i])
  {
    seq(|s|, i requires 0 <= i < |s| && Displayable(s[i]) => ToInsert(s[i]))
  }

  /** `movies.slice(0, count).filter(...).map(...)`. */
  function Normalise(movies: seq<TmdbMovie>, count: int): seq<MovieInsert> {
    ToInserts(KeepDisplayable(SliceTo(movies, count)))
  }

  /** What `fetchMoviePool(count)` resolves to, or the error it fails with. */
  function MoviePool(catalog: int -> PageResponse, count: int): Result<seq<MovieInsert>, FetchError> {
    match Fetched(catalog, PageCount(count))
    case Err(e) => Err(e)
    case Ok(movies) => Ok(Normalise(movies, count))
  }

  // ---------------------------------------------------------------------
  // The fetch loop
  // ---------------------------------------------------------------------

  /**
   * `fetchMoviePool(count)`. Besides the outcome it returns `requested`, the
   * page numbers it asked the catalogue for, in the order it asked.
   */
  method FetchMoviePool(count: int, catalog: int -> PageResponse)
    returns (outcome: Result<seq<MovieInsert>, FetchError>, requested: seq<int>)
    ensures outcome == MoviePool(catalog, count)
    ensures forall i :: 0 <= i < |requested| ==> requested[i] == i + 1
    ensures outcome.Ok? ==> |requested| == Max(PageCount(count), 0) && AllSucceed(catalog, PageCount(count))
    ensures outcome.Err? ==>
      && 1 <= |requested| <= PageCount(count)
      && AllSucceed(catalog, |requested| - 1)
      && !Succeeded(catalog(|requested|))
      && outcome.error == ErrorOf(catalog(|requested|))
  {
    var pages := PageCount(count);
    var movies: seq<TmdbMovie> := [];
    requested := [];
    var page := 1;
    while page <= pages
      invariant 1 <= page <= Max(pages, 0) + 1
      invariant |requested| == page - 1
      invariant forall i :: 0 <= i < |requested| ==> requested[i] == i + 1
      invariant AllSucceed(catalog, page - 1)
      invariant Fetched(catalog, page - 1) == Ok(movies)
    {
      var res := catalog(page);
      requested := requested + [page];
      if !Succeeded(res) {
        FetchedStopsAtFirstFailure(catalog, pages, page);
        outcome := Err(ErrorOf(res));
        return;
      }
      movies := movies + res.results;
      page := page + 1;
    }
    outcome := Ok(Normalise(movies, count));
  }

  // ---------------------------------------------------------------------
  // Properties of the fetch loop
  // ---------------------------------------------------------------------

  /** A failing page ends the fetch: its error is the outcome, whatever later pages hold. */
  lemma {:induction false} FetchedStopsAtFirstFailure(catalog: int -> PageResponse, n: int, p: int)
    requires 1 <= p <= n
    requires AllSucceed(catalog, p - 1) && !Succeeded(catalog(p))
    ensures Fetched(catalog, n) == Err(ErrorOf(catalog(p)))
    decreases n
  {
    if n > p {
      FetchedStopsAtFirstFailure(catalog, n - 1, p);
    } else {
      FetchedAllSucceed(catalog, p - 1);
    }
  }

  /** With every page succeeding, the outcome is the pages' results concatenated in page order. */
  lemma {:induction false} FetchedAllSucceed(catalog: int -> PageResponse, n: nat)
    requires AllSucceed(catalog, n)
    ensures Fetched(catalog, n) == Ok(Concat(PageResults(catalog, n)))
  {
    if n > 0 {
      FetchedAllSucceed(catalog, n - 1);
      assert PageResults(catalog, n) == PageResults(catalog, n - 1) + [catalog(n).results];
      ConcatSnoc(PageResults(catalog, n - 1), catalog(n).results);
    }
  }

  lemma {:induction false} ConcatSnoc<T>(lists: seq<seq<T>>, last: seq<T>)
    ensures Concat(lists + [last]) == Concat(lists) + last
  {
    if lists != [] {
      assert (lists + [last])[1..] == lists[1..] + [last];
      ConcatSnoc(lists[1..], last);
    }
  }

  /** The fetch succeeds exactly when every requested page succeeds. */
  lemma {:induction false} FetchedOkIff(catalog: int -> PageResponse, n: int)
    ensures Fetched(catalog, n).Ok? <==> AllSucceed(catalog, n)
    decreases n
  {
    if n >= 1 {
      FetchedOkIff(catalog, n - 1);
    }
  }

  /** Full pages of 20 movies give 20 movies per requested page. */
  lemma {:induction false} FetchedFullPages(catalog: int -> PageResponse, n: nat)
    requires AllSucceed(catalog, n)
    requires forall p :: 1 <= p <= n ==> |catalog(p).results| == PAGE_SIZE
    ensures Fetched(catalog, n).Ok? && |Fetched(catalog, n).value| == PAGE_SIZE * n
  {
    if n > 0 {
      FetchedFullPages(catalog, n - 1);
    }
  }

  /**
   * When the catalogue serves full pages, the ceil(count / 20) pages hold at
   * least `count` movies, so the slice keeps exactly `count` of them.
   */
  lemma FullPagesFillTheSlice(catalog: int -> PageResponse, count: int)
    requires 0 < count
    requires AllSucceed(catalog, PageCount(count))
    requires forall p :: 1 <= p <= PageCount(count) ==> |catalog(p).results| == PAGE_SIZE
    ensures Fetched(catalog, PageCount(count)).Ok?
    ensures |SliceTo(Fetched(catalog, PageCount(count)).value, count)| == count
  {
    FetchedFullPages(catalog, PageCount(count));
  }

  // ---------------------------------------------------------------------
  // Properties of the pipeline
  // ---------------------------------------------------------------------

  /** The i-th movie KeepDisplayable keeps is the one at position KeptIndices(s)[i] of s. */
  lemma {:induction false} KeptIndicesPick(s: seq<TmdbMovie>)
    ensures |KeptIndices(s)| == |KeepDisplayable(s)|
    ensures forall i :: 0 <= i < |KeptIndices(s)| ==>
      KeptIndices(s)[i] < |s| && KeepDisplayable(s)[i] == s[KeptIndices(s)[i]]
    decreases |s|
  {
    if s != [] {
      var init := s[..|s| - 1];
      KeptIndicesPick(init);
      forall i | 0 <= i < |KeptIndices(init)|
        ensures KeepDisplayable(init)[i] == s[KeptIndices(init)[i]]
      {
        assert init[KeptIndices(init)[i]] == s[KeptIndices(init)[i]];
      }
    }
  }

  /** KeptIndices lists positions in increasing order, i.e. kept movies stay in catalogue order. */
  lemma {:induction false} KeptIndicesIncreasing(s: seq<TmdbMovie>)
    ensures forall i :: 0 <= i < |KeptIndices(s)| ==> KeptIndices(s)[i] < |s|
    ensures forall i, j :: 0 <= i < j < |KeptIndices(s)| ==> KeptIndices(s)[i] < KeptIndices(s)[j]
    decreases |s|
  {
    if s != [] {
      KeptIndicesIncreasing(s[..|s| - 1]);
    }
  }

  /** A position is kept exactly when the movie there is displayable. */
  lemma {:induction false} KeptIndicesComplete(s: seq<TmdbMovie>)
    ensures forall j :: 0 <= j < |s| ==> (Displayable(s[j]) <==> j in KeptIndices(s))
    decreases |s|
  {
    if s != [] {
      var init := s[..|s| - 1];
      KeptIndicesComplete(init);
      KeptIndicesIncreasing(init);
      assert forall j :: 0 <= j < |init| ==> s[j] == init[j];
    }
  }

  /** The pool is never longer than `count` nor than the accumulated movies. */
  lemma NormaliseLength(movies: seq<TmdbMovie>, count: int)
    ensures |Normalise(movies, count)| <= |movies|
    ensures 0 <= count ==> |Normalise(movies, count)| <= count
  {
  }

  /**
   * Each pool entry is built from a displayable movie among the first `count`
   * accumulated movies, in catalogue order, with its fields carried over; and
   * every displayable movie among them has an entry.
   */
  lemma NormaliseEntries(movies: seq<TmdbMovie>, count: int)
    ensures var window := SliceTo(movies, count);
      var pool := Normalise(movies, count);
      var origin := KeptIndices(window);
      && |origin| == |pool|
      && (forall i, j :: 0 <= i < j < |origin| ==> origin[i] < origin[j])
      && (forall j :: 0 <= j < |window| ==> (Displayable(window[j]) <==> j in origin))
      && forall i :: 0 <= i < |pool| ==>
        && origin[i] < |window|
        && Displayable(window[origin[i]])
        && pool[i].tmdbId == window[origin[i]].id
        && pool[i].title == window[origin[i]].title
        && pool[i].overview == window[origin[i]].overview
        && pool[i].posterUrl == IMG_BASE + window[origin[i]].posterPath.value
        && pool[i].genres == ResolveGenres(window[origin[i]].genreIds)
        && pool[i].voteAverage == RoundToTenth(window[origin[i]].voteAverage)
  {
    var window := SliceTo(movies, count);
    KeptIndicesPick(window);
    KeptIndicesIncreasing(window);
    KeptIndicesComplete(window);
  }

  /**
   * Every pool entry has a poster URL that extends IMG_BASE by a non-empty
   * path, a non-empty overview, at most as many genres as ids, all from the table.
   */
  lemma NormaliseFieldsFilled(movies: seq<TmdbMovie>, count: int)
    ensures forall i :: 0 <= i < |Normalise(movies, count)| ==>
      var e := Normalise(movies, count)[i];
      && |e.posterUrl| > |IMG_BASE| && e.posterUrl[..|IMG_BASE|] == IMG_BASE
      && e.overview != ""
      && forall g <- e.genres :: g in GENRE_MAP.Values
  {
  }

  // ---------------------------------------------------------------------
  // Properties of the whole fetch
  // ---------------------------------------------------------------------

  /** A non-positive count requests nothing and yields an empty pool. */
  lemma NonPositiveCountIsEmpty(catalog: int -> PageResponse, count: int)
    requires count <= 0
    ensures MoviePool(catalog, count) == Ok([])
  {
  }

  /** The fetch fails exactly when one of the ceil(count / 20) pages fails. */
  lemma MoviePoolFailsIff(catalog: int -> PageResponse, count: int)
    ensures MoviePool(catalog, count).Err? <==> !AllSucceed(catalog, PageCount(count))
  {
    FetchedOkIff(catalog, PageCount(count));
  }

  /** A successful pool has at most `count` entries. */
  lemma MoviePoolLength(catalog: int -> PageResponse, count: int)
    requires MoviePool(catalog, count).Ok?
    ensures |MoviePool(catalog, count).value| <= Max(count, 0)
  {
  }

  // ---------------------------------------------------------------------
  // The genre table
  // ---------------------------------------------------------------------

  /** Resolving genres distributes over concatenation of id lists. */
  lemma {:induction false} ResolveGenresAppend(a: seq<int>, b: seq<int>)
    ensures ResolveGenres(a + b) == ResolveGenres(a) + ResolveGenres(b)
    decreases |a|
  {
    if a != [] {
      assert a + b != [] && (a + b)[0] == a[0] && (a + b)[1..] == a[1..] + b;
      ResolveGenresAppend(a[1..], b);
      var head := if Truthy(Lookup(a[0])) then [Lookup(a[0]).value] else [];
      assert ResolveGenres(a) == head + ResolveGenres(a[1..]);
      assert ResolveGenres(a + b) == head + (ResolveGenres(a[1..]) + ResolveGenres(b));
    } else {
      assert a + b == b;
    }
  }

  /** A single id resolves to its table name, or to nothing when unknown. */
  lemma ResolveGenresSingle(id: int)
    ensures ResolveGenres([id]) == if id in GENRE_MAP then [GENRE_MAP[id]] else []
  {
  }

  /** When every id is known, each resolves, in order, to its table name. */
  lemma {:induction false} ResolveGenresAllKnown(ids: seq<int>)
    requires forall i :: 0 <= i < |ids| ==> ids[i] in GENRE_MAP
    ensures |ResolveGenres(ids)| == |ids|
    ensures forall i :: 0 <= i < |ids| ==> ResolveGenres(ids)[i] == GENRE_MAP[ids[i]]
    decreases |ids|
  {
    if ids != [] {
      ResolveGenresAllKnown(ids[1..]);
    }
  }

  /** Unknown ids are dropped, not replaced: the genres are empty exactly when no id is known. */
  lemma {:induction false} ResolveGenresNoneKnown(ids: seq<int>)
    ensures ResolveGenres(ids) == [] <==> forall id <- ids :: id !in GENRE_MAP
    decreases |ids|
  {
    if ids != [] {
      ResolveGenresNoneKnown(ids[1..]);
    }
  }

  /** Ids [28, 12] give ["Action", "Adventure"]; id 99999 gives nothing. */
  lemma ResolveGenresExample()
    ensures ResolveGenres([28, 12]) == ["Action", "Adventure"]
    ensures ResolveGenres([99999]) == []
  {
  }

  /** A rating in [0, 10] stays in [0, 10] after rounding. */
  lemma RoundToTenthRange(v: real)
    requires 0.0 <= v <= 10.0
    ensures 0.0 <= RoundToTenth(v) <= 10.0
  {
  }
}
