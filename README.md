# Movie catalog backend — verified model

A model of the core of a small movie-catalog backend: listing movies page by
page, fetching one by id, creating a movie together with its genres, actors,
languages and country, patching its fields, and deleting it. The relational
database behind it is replaced by in-memory tables: a movie table and four
related-entity tables (genres, actors, languages, countries), each row with an
integer id handed out by a per-table counter.

Layout, one module per file:

- `wrappers.dfy` (`Wrappers`): `Option`, the HTTP errors (`NotFound` 404,
  `Conflict` 409, `BadRequest` 400, `Unprocessable` 422) and a `Result`
  datatype that carries them instead of raised exceptions.
- `schemas.dfy` (`Schemas`): the request and response shapes of
  `src/schemas/movies.py`: the status enum, the create payload with its field
  bounds (`ValidCreate`), the all-optional patch payload, the list response
  with its links as `PageLink(page, perPage)` values.
- `tables.dfy` (`Tables`): a related-entity table, the `get_or_create` lookup
  as a pure transition (`Resolve`, `ResolveAll`) with its lemmas, and the
  class `Table` whose methods update a table in place and are proved equal to
  those transitions.
- `movies.dfy` (`Movies`): the movie row as returned with its relations
  eagerly loaded, lookup by id, newest-first ordering and the field-by-field
  patch.
- `pagination.dfy` (`Pagination`): `get_movies` (offset, limit, descending id
  order, empty page is 404) and the list route (query bounds, page count,
  previous/next links).
- `catalog.dfy` (`Catalog`): the whole store as a value, the create, get,
  delete and patch operations as transitions on it, and the lemmas about them.
- `store.dfy` (`CatalogStore`): class `Store`, the store updated in place;
  each of its methods is proved to perform exactly the transition of
  `Catalog` and to keep the store invariant.

Design decisions of the model:

- The movie table is kept in ascending id order, as a table clustered on an
  auto-increment key is; `order_by(id.desc())` is then the reverse, and
  `NewestFirstOrdered` proves that this order is strictly descending and a
  permutation of the table.
- The route file and the data access file repeat create, update and delete
  almost line for line, so one model serves both. They differ on delete: the
  data access function returns `None` for an absent id (`DeleteStep`,
  `Store.DeleteMovie`) while the route answers 404 and returns the deleted
  movie (`DeleteHandlerStep`, `Store.DeleteMovieHandler`); both are modelled.
- The framework's parameter validation is part of each route's declaration
  (`Query(ge=1)`, `Query(ge=1, le=20)`, `Path(ge=1)` on patch, `Field`
  bounds on the create body), so it is modelled as an `Unprocessable` (422)
  outcome. The list route rejects a `per_page` outside [1, 20]; it does not
  clamp it into that range.
- Whether the commit of a patch fails depends on the storage, so it is the
  parameter `commitFails` of `UpdateStep`; a failure yields 400 and no change.
- The (name, release date) pair is unique only by the check create makes;
  the patch endpoint makes none, so uniqueness is not a store invariant:
  `CreatePreservesNameDateUnique` shows create keeps it and
  `PatchCanDuplicateNameDate` exhibits a patch that breaks it. Likewise the
  patch schema has no bounds, and `PatchCanLeaveScoreRange` shows a patch
  taking a score above 100.
- The read-only handlers (`GetMovie`, `ListMovies`) are functions of the
  store's contents; on a `Store` object they apply to `State()` and
  `movies`.

## Model

| member | source | states |
|---|---|---|
| Schemas.ParseStatus | src/schemas/movies.py:73-76 | a status string is accepted exactly when it is one of "Released", "Post Production", "In Production", and the accepted status has that label |
| Schemas.StatusRoundTrip | src/schemas/movies.py:73-76 | every status read back from its own label is that status |
| Schemas.CreateBoundsInclusive | src/schemas/movies.py:36-98 | each bounded field is checked on its own with inclusive bounds: from a valid body, a new name is accepted exactly when it has at most 255 characters, a new score exactly when it lies in [0, 100], a new budget or revenue exactly when it is at least 0; the other fields never cause a rejection |
| Schemas.PresentFields | src/schemas/movies.py:116-123 | every patch field is optional: the payload with no field set is the only one that carries no field |
| Tables.Lookup | src/crud/movies.py:29-31 | the filter_by query finds nothing exactly when no row has the key, otherwise a row of the table with that key |
| Tables.LookupUnique | src/crud/movies.py:31 | when keys are unique (the assumption of scalar_one_or_none) the lookup returns the one row with the key |
| Tables.Resolve | src/crud/movies.py:28-37 | get_or_create returns a row with the key; on a hit the table is unchanged, on a miss exactly one row with the next id and the key is appended |
| Tables.ResolvePreservesInv | src/crud/movies.py:28-37 | get_or_create keeps keys unique and ids increasing, and on a hit returns the existing row with the key |
| Tables.ResolveIdempotent | src/crud/movies.py:28-37 | a second get_or_create with the same key returns the same row and leaves the table unchanged |
| Tables.ResolveAll | src/crud/movies.py:52-56 | resolving a list of names yields one row per name, in order, each carrying its name |
| Tables.ResolveAllPreservesInv | src/crud/movies.py:52-56 | resolving a list keeps the table invariant, only appends rows, each appended row carries one of the given names that the table lacked before, and every returned row is in the resulting table |
| Tables.ResolveAllPresent | src/crud/movies.py:52-56 | when every name is already present nothing is added and every returned row is an existing one |
| Tables.ResolveAllIdempotent | src/crud/movies.py:52-56 | resolving the same names twice returns the same rows and the second pass adds nothing |
| Tables.Table.GetOrCreate | src/crud/movies.py:28-37 | the in-place get_or_create performs exactly Resolve on the table and keeps it valid |
| Tables.Table.GetOrCreateAll | src/routes/movies.py:86-94 | the loop over names performs exactly ResolveAll on the table and keeps it valid |
| Movies.FindMovie | src/crud/movies.py:91-102 | get_movie_by_id returns nothing exactly when no movie has the id, otherwise a movie of the table with that id |
| Movies.FindMovieUnique | src/crud/movies.py:102 | with distinct ids, looking up a movie's id returns that movie |
| Movies.NewestFirstOrdered | src/crud/movies.py:20 | ordering by descending id lists ids strictly decreasing and is a permutation of the table |
| Movies.ApplyPatch | src/crud/movies.py:140-144 | a patch sets every field the payload carries to the payload's value and changes no other field, id or relation |
| Movies.PatchEmptyAndIdempotent | src/routes/movies.py:144-148 | an empty patch leaves a movie unchanged, and applying the same patch twice equals applying it once |
| Pagination.PageCount | src/routes/movies.py:29 | the page count is the ceiling of total items over per_page, and is 0 exactly when there are no movies |
| Pagination.SelectPage | src/crud/movies.py:17-25 | the page is the slice of the newest-first movies starting at (page-1)*per_page, exactly per_page long when that many remain and otherwise the rest of the movies; it is NotFound exactly when the offset is past the end |
| Pagination.ListMovies | src/routes/movies.py:20-48 | the list route answers 422 exactly for rejected query parameters, otherwise 404 or a response whose total_items is the number of movies and whose page holds 1 to per_page movies |
| Pagination.ListMoviesRequest | src/routes/movies.py:20-48 | an omitted page means page 1 and an omitted per_page means 10, each independently; the bare request succeeds exactly when there is a movie and then shows the newest ten (or all, if fewer) with total_items the number of movies, no previous link, and a next link exactly when there are more than ten |
| Pagination.PageNonEmptyIff | src/crud/movies.py:18-24 | a page is non-empty exactly when its number is at most the page count |
| Pagination.ListNotFoundIff | src/crud/movies.py:23-24 | with accepted parameters the list is 404 exactly for pages past the last, so for every page of an empty store |
| Pagination.ListResponseShape | src/routes/movies.py:26-47 | total_items is the number of movies, total_pages the page count, the movies are the selected page (at most per_page), prev is absent iff page <= 1 else page-1, next is absent iff page >= total_pages else page+1, both with the same per_page |
| Pagination.LinksLeadToPages | src/routes/movies.py:31-38 | the prev and next links of a successful response name pages that are themselves non-empty |
| Pagination.PageOrdered | src/crud/movies.py:20 | a page lists its movies with strictly decreasing ids |
| Pagination.PagesDisjoint | src/crud/movies.py:18-22 | two different pages share no movie id |
| Catalog.CreateStep | src/routes/movies.py:73-127 | create answers 422 exactly for an invalid body, 409 exactly for a valid body whose (name, date) exists, and succeeds otherwise; then the movie with id equal to the counter is appended and the counter advances; on failure nothing changes |
| Catalog.DeleteStep | src/crud/movies.py:105-124 | delete returns nothing exactly when no movie has the id, and then changes nothing; otherwise it returns the movie found by id and the table loses exactly that movie (as a multiset); related tables and the counter stay |
| Catalog.DeleteHandlerStep | src/routes/movies.py:61-70 | the delete route makes the same change as delete, answers 200 with the found movie exactly when the id exists and 404 otherwise |
| Catalog.UpdateStep | src/routes/movies.py:130-153 | patch succeeds exactly for an id of at least 1 that exists when the commit does not fail; on failure nothing changes; the movie count and the related tables never change |
| Catalog.GetMovie | src/routes/movies.py:51-58 | the get route answers 404 exactly when no movie has the id, otherwise a movie of the table with that id |
| Catalog.CreatePreservesInv | src/routes/movies.py:86-113 | create keeps every table's keys unique, ids ordered and below the counters, and every relation pointing into its table |
| Catalog.CreateSuccess | src/routes/movies.py:86-111 | a successful create appends exactly one movie with a fresh id and the payload's fields; its genres, actors and languages carry the given names one-to-one in order; its country has code and name equal to the given string; related tables only grow, each new genre, actor or language row carries a given name the table lacked, and the country table gains at most the one row for the given string |
| Catalog.CreatePreservesNameDateUnique | src/crud/movies.py:41-50 | create keeps (name, date) unique across movies |
| Catalog.CreateTwiceConflicts | src/routes/movies.py:75-84 | posting the same movie again after a success answers 409 and changes nothing |
| Catalog.GetAfterCreate | src/crud/movies.py:78-88 | reading back the id a create returned gives the created movie |
| Catalog.CreateSharesRelatedRows | src/crud/movies.py:52-59 | two creates naming the same genres, actors, languages and country link the same rows, and the second adds no related row |
| Catalog.DeleteSpec | src/crud/movies.py:105-124 | delete of an absent id returns nothing and changes nothing; otherwise it returns the movie with the id and removes exactly that movie, leaving related tables and the id counter alone |
| Catalog.DeletePreservesInv | src/crud/movies.py:121 | delete keeps the store invariant |
| Catalog.UpdateSpec | src/routes/movies.py:130-153 | patch answers 422 for an id below 1, 404 for an unknown id, 400 for a failed commit, each without change, and succeeds exactly when none of these holds; then the movie with the id reads back as the patched movie and every other movie, related table and the invariant is unchanged |
| Catalog.EmptyPatchChangesNothing | src/routes/movies.py:144-148 | an empty patch of an existing movie succeeds and leaves the store unchanged |
| Catalog.PatchCanDuplicateNameDate | src/routes/movies.py:136-148 | a patch can make two movies share name and date, since patch does no uniqueness check |
| Catalog.PatchCanLeaveScoreRange | src/schemas/movies.py:116-123 | a patch can set a score above 100, since the patch schema declares no bounds |
| CatalogStore.Store.CreateMovie | src/routes/movies.py:73-127 | the in-place create performs exactly CreateStep on the tables and keeps the store valid |
| CatalogStore.Store.DeleteMovie | src/crud/movies.py:105-124 | the in-place delete performs exactly DeleteStep (None on absence) and keeps the store valid |
| CatalogStore.Store.DeleteMovieHandler | src/routes/movies.py:61-70 | the delete route performs exactly DeleteHandlerStep (404 on absence) and keeps the store valid |
| CatalogStore.Store.UpdateMovie | src/routes/movies.py:130-153 | the in-place patch performs exactly UpdateStep and keeps the store valid |

## Left out

- Asynchronous execution, the session and its commit, flush and refresh, and eager loading: the tables are plain values, a movie row carries its related rows, and the re-read after commit is the identity.
- The race between concurrent transactions in get-or-create and in the (name, date) check: every operation is one atomic transition.
- Floating point: score, budget and revenue are reals, used only for the bounds checks and for equality.
- The link URL text (`/theater/movies/?page=...&per_page=...`): links are page numbers with the page size.
- Request routing, dependency injection, payload parsing and dumping, and `setattr`: the patch is an explicit record of optional fields.
- A patch field sent explicitly as null: the model has only "sent with a value" and "not sent"; a null written to a required column fails at commit, which `commitFails` covers.
- Create and delete do not catch storage failures: a failing commit there is a server error outside the model.
- A create body that names the same genre, actor or language twice: the model links the row twice; what the join table then does is storage behaviour.
- Dates are compared only for equality; calendar validity is the parser's concern.
