/**
 * Movie rows and the read-only queries of the data access layer over the
 * movie table: lookup by id, the (name, date) existence check, newest-first
 * ordering, and the field-by-field patch.
 */
module Movies {
  import opened Wrappers
  import opened Schemas
  import opened Tables

  /** A movie row as it is returned with its relations eagerly loaded. */
  datatype Movie = Movie(
    id: int,
    name: string,
    date: Date,
    score: real,
    overview: string,
    status: Status,
    budget: real,
    revenue: real,
    country: Row<CountryKey>,
    genres: seq<Row<string>>,
    actors: seq<Row<string>>,
    languages: seq<Row<string>>)

  /** The table keeps its rows in primary-key order; ids come from a counter. */
  predicate IdsAscending(movies: seq<Movie>)
  {
    forall i, j :: 0 <= i < j < |movies| ==> movies[i].id < movies[j].id
  }

  /** Position of the movie with the given id, or -1. */
  function IndexOfId(movies: seq<Movie>, id: int): (i: int)
    ensures -1 <= i < |movies|
    ensures i == -1 <==> forall j :: 0 <= j < |movies| ==> movies[j].id != id
    ensures i >= 0 ==> movies[i].id == id
  {
    if |movies| == 0 then -1
    else if movies[0].id == id then 0
    else
      var k := IndexOfId(movies[1..], id);
      if k == -1 then -1 else k + 1
  }

  /** With distinct ids, the movie at an index is found by its id at that index. */
  lemma IndexOfIdUnique(movies: seq<Movie>, k: int)
    requires IdsAscending(movies)
    requires 0 <= k < |movies|
    ensures IndexOfId(movies, movies[k].id) == k
  {
    var i := IndexOfId(movies, movies[k].id);
    if i != k {
      assert false;
    }
  }

  /** get_movie_by_id: the movie with the id, or nothing when no movie has it. */
  function FindMovie(movies: seq<Movie>, id: int): (r: Option<Movie>)
    ensures r.None? <==> forall m :: m in movies ==> m.id != id
    ensures r.Some? ==> r.value in movies && r.value.id == id
  {
    var i := IndexOfId(movies, id);
    if i < 0 then None else Some(movies[i])
  }

  /** With distinct ids, every movie of the table is what a lookup of its id returns. */
  lemma FindMovieUnique(movies: seq<Movie>, m: Movie)
    requires IdsAscending(movies)
    requires m in movies
    ensures FindMovie(movies, m.id) == Some(m)
  {
    var k :| 0 <= k < |movies| && movies[k] == m;
    IndexOfIdUnique(movies, k);
  }

  /** `order_by(MovieModel.id.desc())` on a table held in ascending id order. */
  function NewestFirst(movies: seq<Movie>): (r: seq<Movie>)
    ensures |r| == |movies|
  {
    seq(|movies|, i requires 0 <= i < |movies| => movies[|movies| - 1 - i])
  }

  /** Ordering the table newest first gives strictly descending ids and neither loses nor adds a movie. */
  lemma {:induction false} NewestFirstOrdered(movies: seq<Movie>)
    requires IdsAscending(movies)
    ensures forall i, j :: 0 <= i < j < |movies| ==> NewestFirst(movies)[i].id > NewestFirst(movies)[j].id
    ensures multiset(NewestFirst(movies)) == multiset(movies)
  {
    NewestFirstPermutation(movies);
  }

  lemma {:induction false} NewestFirstPermutation(movies: seq<Movie>)
    ensures multiset(NewestFirst(movies)) == multiset(movies)
  {
    if movies != [] {
      var init := movies[..|movies| - 1];
      NewestFirstPermutation(init);
      assert NewestFirst(movies) == [movies[|movies| - 1]] + NewestFirst(init);
      assert movies == init + [movies[|movies| - 1]];
    }
  }

  /** The existence check `select(...).where(name == ..., date == ...)` of create. */
  predicate HasNameDate(movies: seq<Movie>, name: string, date: Date)
  {
    exists m :: m in movies && m.name == name && m.date == date
  }

  /** The advisory uniqueness of (name, release date) across movies. */
  predicate NameDateUnique(movies: seq<Movie>)
  {
    forall i, j :: 0 <= i < j < |movies| ==> movies[i].name != movies[j].name || movies[i].date != movies[j].date
  }

  /** The list entry a movie is shown as. */
  function ToListItem(m: Movie): ListItem
  {
    ListItem(m.id, m.name, m.date, m.score, m.overview)
  }

  function ListItems(movies: seq<Movie>): (r: seq<ListItem>)
    ensures |r| == |movies|
  {
    seq(|movies|, i requires 0 <= i < |movies| => ToListItem(movies[i]))
  }

  /** The patchable fields on which two movies differ. */
  function ChangedFields(a: Movie, b: Movie): set<Field>
  {
    (if a.name != b.name then {NameField} else {})
    + (if a.date != b.date then {DateField} else {})
    + (if a.score != b.score then {ScoreField} else {})
    + (if a.overview != b.overview then {OverviewField} else {})
    + (if a.status != b.status then {StatusField} else {})
    + (if a.budget != b.budget then {BudgetField} else {})
    + (if a.revenue != b.revenue then {RevenueField} else {})
  }

  function Or<T>(o: Option<T>, default: T): T
  {
    if o.Some? then o.value else default
  }

  /**
   * The `setattr` loop over `model_dump(exclude_unset=True)`: every field the
   * payload carries is overwritten, nothing else.
   */
  function ApplyPatch(m: Movie, u: MovieUpdate): (r: Movie)
    ensures ChangedFields(m, r) <= PresentFields(u)
    ensures r.id == m.id && r.country == m.country
    ensures r.genres == m.genres && r.actors == m.actors && r.languages == m.languages
    ensures u.name.Some? ==> r.name == u.name.value
    ensures u.date.Some? ==> r.date == u.date.value
    ensures u.score.Some? ==> r.score == u.score.value
    ensures u.overview.Some? ==> r.overview == u.overview.value
    ensures u.status.Some? ==> r.status == u.status.value
    ensures u.budget.Some? ==> r.budget == u.budget.value
    ensures u.revenue.Some? ==> r.revenue == u.revenue.value
  {
    m.(name := Or(u.name, m.name),
       date := Or(u.date, m.date),
       score := Or(u.score, m.score),
       overview := Or(u.overview, m.overview),
       status := Or(u.status, m.status),
       budget := Or(u.budget, m.budget),
       revenue := Or(u.revenue, m.revenue))
  }

  /** An empty patch changes nothing, and applying a patch twice is the same as once. */
  lemma PatchEmptyAndIdempotent(m: Movie, u: MovieUpdate)
    ensures ApplyPatch(m, EmptyUpdate) == m
    ensures ApplyPatch(ApplyPatch(m, u), u) == ApplyPatch(m, u)
  {
  }
}
