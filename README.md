# Movie pool fetcher (movie-night picker)

This project models `fetchMoviePool` from `src/lib/tmdb.ts` of the movie-night picker in Dafny, and proves properties about the model. `fetchMoviePool` is the routine that fills a room's movie pool from the TMDB "popular movies" listing:

- It computes `ceil(count / 20)` pages.
- It requests those pages strictly in order, 1, 2, ….
- It fails with the first response that is not OK.
- It appends each page's results.
- It keeps the first `count` accumulated movies.
- It drops every movie whose poster path is null or empty, or whose overview is empty.
- It maps each remaining movie to a `MovieInsert`:
  - the id, title and overview are copied;
  - the poster URL is the image base URL followed by the poster path;
  - the genre ids are resolved through the fixed 19-entry genre table, and unknown ids are dropped;
  - the rating is rounded to one decimal place.

Everything is in one module, `Tmdb` (`tmdb.dfy`):

- The data model:
  - `TmdbMovie` (a catalogue movie; the poster path is an `Option`).
  - `MovieInsert` (a room movie without its id, room id and display order).
  - `PageResponse` (either an HTTP status with a result list, or a `TransportFailure` when `fetch` itself throws).
  - `FetchError` (the error the call fails with).
- The network is a parameter. `catalog: int -> PageResponse` is the answer the server gives to the request for page `n`. A response is OK when its status is in the range 200–299, as `Response.ok` defines it.
- The page loop is the method `FetchMoviePool`. It returns:
  - the outcome (`Ok(pool)` or `Err(error)`);
  - `requested`, the page numbers it asked for, in order. This is how the model makes "which pages were fetched" observable.

  The method is proved against the specification function `MoviePool`, which is `Fetched` (the outcome of requesting pages 1..n) followed by `Normalise`.
- The pure pipeline is written as functions that mirror the source's `slice`, `filter` and `map` steps:
  - `SliceTo`, `KeepDisplayable`, `ToInsert`/`ToInserts` and `Normalise`;
  - `Lookup`, `Truthy` and `ResolveGenres` for `genre_ids.map(id => GENRE_MAP[id]).filter(Boolean)`;
  - `RoundToTenth` for `Math.round(v * 10) / 10`.
- The ghost function `KeptIndices` gives, for each kept movie, its position in the truncated list. This witnesses that the pool is an order-preserving selection from the catalogue.

`count` is an `int`. The model follows the code for every integer, including zero and negative counts:

- `Math.ceil(count / 20)` is at most 0 for such counts, so the loop requests nothing.
- `slice(0, count)` with a negative `count` counts from the back of the array (modelled in `SliceTo`). In `fetchMoviePool` that case only ever meets an empty array, so the pool is empty (`NonPositiveCountIsEmpty`).

## Model

| member | source | states |
|---|---|---|
| `Tmdb.PageCount` | src/lib/tmdb.ts:41 | the page count is the least `p` with `count <= 20 * p`: `(p - 1) * 20 < count <= p * 20`. It is positive exactly when `count` is |
| `Tmdb.FetchMoviePool` | src/lib/tmdb.ts:40-64 | the outcome is `MoviePool(catalog, count)`. Pages are requested as 1, 2, … in order. On success exactly `max(pages, 0)` pages were requested and all succeeded. On failure the last page requested is the first failing one: its error is returned, no list comes back, and no later page is requested |
| `Tmdb.Succeeded` | src/lib/tmdb.ts:48 | no contract of its own: `res.ok`, true for a response with status 200-299 and false for a transport failure; used by `FetchedOkIff`, `FetchedStopsAtFirstFailure` and `FetchMoviePool` |
| `Tmdb.Fetched` | src/lib/tmdb.ts:44-51 | no contract of its own: the outcome of requesting pages 1..n in order; characterised by `FetchedOkIff`, `FetchedAllSucceed`, `FetchedStopsAtFirstFailure` and `FetchedFullPages` |
| `Tmdb.MoviePool` | src/lib/tmdb.ts:40-64 | no contract of its own: `Fetched` for the `PageCount(count)` pages, then `Normalise` on success; characterised by `MoviePoolFailsIff`, `MoviePoolLength` and `NonPositiveCountIsEmpty`, and `FetchMoviePool` is proved equal to it |
| `Tmdb.ErrorOf` | src/lib/tmdb.ts:45-48 | a failed request raises an HTTP error that carries the response's non-2xx status, or a transport error when `fetch` itself failed |
| `Tmdb.FetchedStopsAtFirstFailure` | src/lib/tmdb.ts:44-51 | if page `p` is the first failing page among 1..n, requesting 1..n fails with page `p`'s error, whatever the later pages hold |
| `Tmdb.FetchedOkIff` | src/lib/tmdb.ts:44-51 | requesting pages 1..n succeeds if and only if every one of those pages succeeds |
| `Tmdb.FetchedAllSucceed` | src/lib/tmdb.ts:44-51 | when every page succeeds, the accumulated list is the concatenation of the pages' result lists in page order |
| `Tmdb.FetchedFullPages` | src/lib/tmdb.ts:44-51 | when every page holds 20 movies, n pages accumulate exactly 20 * n movies |
| `Tmdb.FullPagesFillTheSlice` | src/lib/tmdb.ts:41-54 | when the catalogue serves full pages, the `ceil(count / 20)` pages hold at least `count` movies, so the slice keeps exactly `count` of them |
| `Tmdb.SliceTo` | src/lib/tmdb.ts:54 | `slice(0, end)` is a prefix of its input. For `end >= 0` its length is `min(end, length)`; for `end < 0` it is `max(length + end, 0)` |
| `Tmdb.Displayable` | src/lib/tmdb.ts:55 | no contract of its own: the truthiness of `m.poster_path && m.overview`, i.e. a non-null, non-empty poster path and a non-empty overview; characterised through `KeepDisplayable` and `KeptIndicesComplete` |
| `Tmdb.KeepDisplayable` | src/lib/tmdb.ts:55 | the filter never lengthens its input, and every movie it keeps has a non-empty poster path and a non-empty overview |
| `Tmdb.KeptIndicesPick` | src/lib/tmdb.ts:55 | the i-th movie the filter keeps is the input movie at position `KeptIndices(s)[i]` |
| `Tmdb.KeptIndicesIncreasing` | src/lib/tmdb.ts:55 | the kept positions are in range and strictly increasing, so the filter preserves catalogue order |
| `Tmdb.KeptIndicesComplete` | src/lib/tmdb.ts:55 | a position is kept if and only if the movie there is displayable: nothing displayable is dropped and nothing else is kept |
| `Tmdb.ToInsert` | src/lib/tmdb.ts:56-62 | the record copies the id, title and overview unchanged, its poster URL is `IMG_BASE` followed by the poster path (longer than `IMG_BASE` when the path is non-empty), its genres are the resolved genre ids and its rating the rounded rating |
| `Tmdb.ToInserts` | src/lib/tmdb.ts:56-63 | the map keeps the length and entry i is the record built from movie i |
| `Tmdb.Normalise` | src/lib/tmdb.ts:53-63 | no contract of its own: slice to `count`, filter, map; characterised by `NormaliseLength`, `NormaliseEntries` and `NormaliseFieldsFilled` |
| `Tmdb.NormaliseLength` | src/lib/tmdb.ts:53-55 | the pool is never longer than the accumulated movies, nor longer than `count` when `count >= 0` |
| `Tmdb.NormaliseEntries` | src/lib/tmdb.ts:53-63 | entry i of the pool comes from the displayable movie at the i-th kept position (strictly increasing) of the first `count` movies. Its id, title and overview are copied unchanged. Its poster URL is `IMG_BASE` followed by the poster path. Its genres are the resolved genre ids and its rating is the rounded rating. Every displayable movie in that window has an entry |
| `Tmdb.NormaliseFieldsFilled` | src/lib/tmdb.ts:55-61 | every pool entry has a poster URL that strictly extends `IMG_BASE`, a non-empty overview, and genre names taken only from the genre table |
| `Tmdb.NonPositiveCountIsEmpty` | src/lib/tmdb.ts:41-54 | for `count <= 0` the pool is `Ok([])`, whatever the catalogue answers |
| `Tmdb.MoviePoolFailsIff` | src/lib/tmdb.ts:44-51 | the call fails if and only if one of the `ceil(count / 20)` requested pages fails |
| `Tmdb.MoviePoolLength` | src/lib/tmdb.ts:53-55 | a successful pool has at most `max(count, 0)` entries |
| `Tmdb.Lookup` | src/lib/tmdb.ts:7-27 | looking an id up in the genre table yields a name exactly when the id is a key. That name is the table's entry for that id, and it is non-empty |
| `Tmdb.Truthy` | src/lib/tmdb.ts:61 | no contract of its own: `Boolean(x)` for a looked-up name, false for undefined and for the empty string; since `Lookup` never yields an empty name, it keeps exactly the known ids (`ResolveGenresSingle`) |
| `Tmdb.ResolveGenres` | src/lib/tmdb.ts:61 | the resolved genre list is no longer than the id list, and every name in it is a value of the genre table |
| `Tmdb.ResolveGenresAppend` | src/lib/tmdb.ts:61 | resolving a concatenation of id lists is the concatenation of the resolutions, so order is preserved |
| `Tmdb.ResolveGenresSingle` | src/lib/tmdb.ts:7-27 | a single id resolves to its table name, or to nothing when the table lacks it |
| `Tmdb.ResolveGenresAllKnown` | src/lib/tmdb.ts:61 | when every id is in the table, the genres have the same length and entry i is the table name of id i |
| `Tmdb.ResolveGenresNoneKnown` | src/lib/tmdb.ts:61 | the genres are empty if and only if no id is in the table: unknown ids are dropped, not replaced by a placeholder |
| `Tmdb.ResolveGenresExample` | src/lib/tmdb.ts:8-9 | ids `[28, 12]` resolve to `["Action", "Adventure"]`, and `[99999]` resolves to `[]` |
| `Tmdb.RoundToTenth` | src/lib/tmdb.ts:62 | the rounded rating is a whole multiple of 0.1 within `(v - 0.05, v + 0.05]`, which is rounding to the nearest tenth with halves rounded up, as `Math.round` does |
| `Tmdb.RoundToTenthRange` | src/lib/tmdb.ts:62 | a rating in `[0, 10]` stays in `[0, 10]` after rounding |

## Left out

- The HTTP request itself is not modelled: URL and query-string construction, the `PUBLIC_TMDB_API_KEY` environment value, the `language=en-US` parameter and `TMDB_BASE`. The server's answers are the `catalog` parameter instead.
- `res.json()` parsing and a body without a `results` array are left out. A response carries its already-parsed result list.
- The error message text `TMDB fetch failed: <status>` is left out. The error carries the status as a number.
- `async`/`await` are left out. The page requests are sequential, and the model is a plain loop.
- `RoundToTenth`: computed on exact reals, not IEEE doubles. A product such as `v * 10` that the hardware rounds before `Math.round` sees it can differ by one tenth from the model in rare cases.
- `count` is modelled as an integer. A fractional `count` (a JavaScript number such as 2.5) is not modelled.
- The size of the genre table (19 entries) is stated by its definition but not proved as a lemma. The cardinality proof over the 19-entry map display is beyond the solver's budget here.
- The room, member, vote and match shapes of `src/lib/types.ts` declare data and have no behaviour. Only the `RoomMovie` fields appear, as `MovieInsert`.
