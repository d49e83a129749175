/**
 * The whole catalog as in-memory tables, and the create, get, delete and
 * patch operations of the movie endpoints as transitions on it.
 */
module Catalog {
  import opened Wrappers
  import opened Schemas
  import opened Tables
  import opened Movies

  datatype StoreState = StoreState(
    movies: seq<Movie>,
    nextMovieId: int,
    genres: TableState<string>,
    actors: TableState<string>,
    languages: TableState<string>,
    countries: TableState<CountryKey>)

  const EmptyStore: StoreState :=
    StoreState([], 1, TableState([], 1), TableState([], 1), TableState([], 1), TableState([], 1))

  predicate RowsIn<K(==)>(rows: seq<Row<K>>, t: TableState<K>)
  {
    forall i :: 0 <= i < |rows| ==> rows[i] in t.rows
  }

  /** Every relation of the movie points at a row of the corresponding table. */
  predicate Linked(m: Movie, s: StoreState)
  {
    && m.country in s.countries.rows
    && RowsIn(m.genres, s.genres)
    && RowsIn(m.actors, s.actors)
    && RowsIn(m.languages, s.languages)
  }

  /** The store invariant. (name, date) uniqueness is not part of it: see NameDateUnique. */
  predicate Inv(s: StoreState)
  {
    && TableInv(s.genres) && TableInv(s.actors) && TableInv(s.languages) && TableInv(s.countries)
    && s.nextMovieId >= 1
    && IdsAscending(s.movies)
    && (forall i :: 0 <= i < |s.movies| ==> 1 <= s.movies[i].id < s.nextMovieId)
    && (forall i :: 0 <= i < |s.movies| ==> Linked(s.movies[i], s))
  }

  /** The country row a payload is linked to: code and display name both set to the given string. */
  function CountryKeyOf(p: MovieCreate): CountryKey
  {
    CountryKey(p.country, Some(p.country))
  }

  /**
   * POST /movies/: reject an invalid body, reject a duplicate (name, date),
   * otherwise get-or-create every related row and append the movie with the
   * next id.
   */
  function CreateStep(s: StoreState, p: MovieCreate): (res: (StoreState, Result<Movie>))
    ensures res.1 == Err(Unprocessable) <==> !ValidCreate(p)
    ensures res.1 == Err(Conflict) <==> ValidCreate(p) && HasNameDate(s.movies, p.name, p.date)
    ensures res.1.Ok? <==> ValidCreate(p) && !HasNameDate(s.movies, p.name, p.date)
    ensures res.1.Err? ==> res.0 == s
    ensures res.1.Ok? ==> res.0.movies == s.movies + [res.1.value] && res.1.value.id == s.nextMovieId
    ensures res.1.Ok? ==> res.0.nextMovieId == s.nextMovieId + 1
  {
    if !ValidCreate(p) then (s, Err(Unprocessable))
    else if HasNameDate(s.movies, p.name, p.date) then (s, Err(Conflict))
    else
      var (genres, genreRows) := ResolveAll(s.genres, p.genres);
      var (actors, actorRows) := ResolveAll(s.actors, p.actors);
      var (languages, languageRows) := ResolveAll(s.languages, p.languages);
      var (countries, countryRow) := Resolve(s.countries, CountryKeyOf(p));
      var m := Movie(s.nextMovieId, p.name, p.date, p.score, p.overview, p.status,
                     p.budget, p.revenue, countryRow, genreRows, actorRows, languageRows);
      (StoreState(s.movies + [m], s.nextMovieId + 1, genres, actors, languages, countries), Ok(m))
  }

  /** GET /movies/{id}/: the movie, or 404. */
  function GetMovie(s: StoreState, id: int): (r: Result<Movie>)
    ensures r.Err? <==> forall m :: m in s.movies ==> m.id != id
    ensures r.Err? ==> r.error == NotFound
    ensures r.Ok? ==> r.value in s.movies && r.value.id == id
  {
    match FindMovie(s.movies, id)
    case None => Err(NotFound)
    case Some(m) => Ok(m)
  }

  /** delete_movie of the data access layer: the deleted movie, or nothing when the id is absent. */
  function DeleteStep(s: StoreState, id: int): (res: (StoreState, Option<Movie>))
    ensures res.1.None? <==> FindMovie(s.movies, id).None?
    ensures res.1.None? ==> res.0 == s
    ensures res.1.Some? ==> res.1 == FindMovie(s.movies, id)
    ensures res.1.Some? ==> multiset(res.0.movies) + multiset{res.1.value} == multiset(s.movies)
    ensures res.0 == s.(movies := res.0.movies)
  {
    var i := IndexOfId(s.movies, id);
    if i < 0 then (s, None)
    else
      assert s.movies == s.movies[..i] + [s.movies[i]] + s.movies[i + 1..];
      (s.(movies := s.movies[..i] + s.movies[i + 1..]), Some(s.movies[i]))
  }

  /** DELETE /movies/{id}/: the same deletion, with absence reported as 404. */
  function DeleteHandlerStep(s: StoreState, id: int): (res: (StoreState, Result<Movie>))
    ensures res.0 == DeleteStep(s, id).0
    ensures res.1.Ok? <==> FindMovie(s.movies, id).Some?
    ensures res.1.Err? ==> res.1.error == NotFound
    ensures res.1.Ok? ==> Some(res.1.value) == FindMovie(s.movies, id)
  {
    var (s', deleted) := DeleteStep(s, id);
    match deleted
    case None => (s', Err(NotFound))
    case Some(m) => (s', Ok(m))
  }

  /**
   * PATCH /movies/{id}/ (`movie_id: int = Path(ge=1)`): 404 for an unknown
   * id, 400 when the commit fails, otherwise the movie patched in place.
   * Whether the commit fails is decided by the storage, so it is a parameter.
   */
  function UpdateStep(s: StoreState, id: int, u: MovieUpdate, commitFails: bool): (res: (StoreState, Result<()>))
    ensures res.1.Ok? <==> id >= 1 && FindMovie(s.movies, id).Some? && !commitFails
    ensures res.1.Err? ==> res.0 == s
    ensures |res.0.movies| == |s.movies| && res.0 == s.(movies := res.0.movies)
  {
    if id < 1 then (s, Err(Unprocessable))
    else
      var i := IndexOfId(s.movies, id);
      if i < 0 then (s, Err(NotFound))
      else if commitFails then (s, Err(BadRequest))
      else (s.(movies := s.movies[i := ApplyPatch(s.movies[i], u)]), Ok(()))
  }

  // ---------------------------------------------------------------- create

  /** Related rows of a successful create are linked in, and the store invariant holds afterwards. */
  lemma CreatePreservesInv(s: StoreState, p: MovieCreate)
    requires Inv(s)
    ensures Inv(CreateStep(s, p).0)
  {
    var (s', r) := CreateStep(s, p);
    if r.Ok? {
      ResolveAllPreservesInv(s.genres, p.genres);
      ResolveAllPreservesInv(s.actors, p.actors);
      ResolveAllPreservesInv(s.languages, p.languages);
      ResolvePreservesInv(s.countries, CountryKeyOf(p));
      assert Extends(s.countries, s'.countries) by {
        if !HasKey(s.countries.rows, CountryKeyOf(p)) {
          assert s'.countries.rows[..|s.countries.rows|] == s.countries.rows;
        }
      }
      forall i | 0 <= i < |s'.movies|
        ensures Linked(s'.movies[i], s')
      {
        if i < |s.movies| {
          StillLinked(s.movies[i], s, s');
        }
      }
    }
  }

  /** Links survive tables that only grew. */
  lemma StillLinked(m: Movie, s: StoreState, s': StoreState)
    requires Linked(m, s)
    requires Extends(s.genres, s'.genres) && Extends(s.actors, s'.actors)
    requires Extends(s.languages, s'.languages) && Extends(s.countries, s'.countries)
    ensures Linked(m, s')
  {
    RowsStillIn(m.genres, s.genres, s'.genres);
    RowsStillIn(m.actors, s.actors, s'.actors);
    RowsStillIn(m.languages, s.languages, s'.languages);
    RowsStillIn([m.country], s.countries, s'.countries);
  }

  lemma RowsStillIn<K>(rows: seq<Row<K>>, t: TableState<K>, t': TableState<K>)
    requires RowsIn(rows, t) && Extends(t, t')
    ensures RowsIn(rows, t')
  {
    forall i | 0 <= i < |rows|
      ensures rows[i] in t'.rows
    {
      var k :| 0 <= k < |t.rows| && t.rows[k] == rows[i];
      assert t'.rows[k] == t.rows[k];
    }
  }

  /**
   * A successful create appends exactly one movie with a fresh id and the
   * payload's fields; its genres, actors and languages carry the given
   * names one-to-one and in order, its country has code and name equal to
   * the given string; the related tables only grow, and only by rows for
   * referenced names they lacked (at most one country row, for that string).
   */
  lemma CreateSuccess(s: StoreState, p: MovieCreate)
    requires Inv(s)
    requires ValidCreate(p) && !HasNameDate(s.movies, p.name, p.date)
    ensures var (s', r) := CreateStep(s, p);
      && r.Ok?
      && s'.movies == s.movies + [r.value]
      && (forall m :: m in s.movies ==> m.id != r.value.id)
      && r.value.name == p.name && r.value.date == p.date && r.value.score == p.score
      && r.value.overview == p.overview && r.value.status == p.status
      && r.value.budget == p.budget && r.value.revenue == p.revenue
      && |r.value.genres| == |p.genres| && (forall i :: 0 <= i < |p.genres| ==> r.value.genres[i].key == p.genres[i])
      && |r.value.actors| == |p.actors| && (forall i :: 0 <= i < |p.actors| ==> r.value.actors[i].key == p.actors[i])
      && |r.value.languages| == |p.languages| && (forall i :: 0 <= i < |p.languages| ==> r.value.languages[i].key == p.languages[i])
      && r.value.country.key == CountryKey(p.country, Some(p.country))
      && Extends(s.genres, s'.genres) && Extends(s.actors, s'.actors)
      && Extends(s.languages, s'.languages) && Extends(s.countries, s'.countries)
      && AddsOnly(s.genres, s'.genres, p.genres) && AddsOnly(s.actors, s'.actors, p.actors)
      && AddsOnly(s.languages, s'.languages, p.languages)
      && AddsOnly(s.countries, s'.countries, [CountryKeyOf(p)])
      && |s'.countries.rows| <= |s.countries.rows| + 1
  {
    ResolveAllPreservesInv(s.genres, p.genres);
    ResolveAllPreservesInv(s.actors, p.actors);
    ResolveAllPreservesInv(s.languages, p.languages);
    var (s', r) := CreateStep(s, p);
    assert Extends(s.countries, s'.countries) by {
      if !HasKey(s.countries.rows, CountryKeyOf(p)) {
        assert s'.countries.rows[..|s.countries.rows|] == s.countries.rows;
      }
    }
  }

  /** Create keeps (name, date) unique across movies when it was unique before. */
  lemma CreatePreservesNameDateUnique(s: StoreState, p: MovieCreate)
    requires NameDateUnique(s.movies)
    ensures NameDateUnique(CreateStep(s, p).0.movies)
  {
    var (s', r) := CreateStep(s, p);
    if r.Ok? {
      forall i, j | 0 <= i < j < |s'.movies|
        ensures s'.movies[i].name != s'.movies[j].name || s'.movies[i].date != s'.movies[j].date
      {
        if j == |s.movies| {
          assert s'.movies[i] in s.movies;
        }
      }
    }
  }

  /** Posting the same movie twice: the second attempt is a 409 and changes nothing. */
  lemma CreateTwiceConflicts(s: StoreState, p: MovieCreate)
    requires CreateStep(s, p).1.Ok?
    ensures var s' := CreateStep(s, p).0;
            CreateStep(s', p) == (s', Err(Conflict))
  {
    var (s', r) := CreateStep(s, p);
    assert r.value in s'.movies;
  }

  /** Reading a movie back by the id its creation returned gives the created movie. */
  lemma GetAfterCreate(s: StoreState, p: MovieCreate)
    requires Inv(s)
    requires CreateStep(s, p).1.Ok?
    ensures var (s', r) := CreateStep(s, p);
            GetMovie(s', r.value.id) == Ok(r.value)
  {
    var (s', r) := CreateStep(s, p);
    CreatePreservesInv(s, p);
    FindMovieUnique(s'.movies, r.value);
  }

  /** Two creates naming the same genres, actors, languages and country share the related rows. */
  lemma CreateSharesRelatedRows(s: StoreState, p: MovieCreate, q: MovieCreate)
    requires Inv(s)
    requires CreateStep(s, p).1.Ok?
    requires q.genres == p.genres && q.actors == p.actors && q.languages == p.languages && q.country == p.country
    requires CreateStep(CreateStep(s, p).0, q).1.Ok?
    ensures var (s1, r1) := CreateStep(s, p);
            var (s2, r2) := CreateStep(s1, q);
            && r2.value.genres == r1.value.genres && r2.value.actors == r1.value.actors
            && r2.value.languages == r1.value.languages && r2.value.country == r1.value.country
            && s2.genres == s1.genres && s2.actors == s1.actors
            && s2.languages == s1.languages && s2.countries == s1.countries
  {
    ResolveAllIdempotent(s.genres, p.genres);
    ResolveAllIdempotent(s.actors, p.actors);
    ResolveAllIdempotent(s.languages, p.languages);
    ResolveIdempotent(s.countries, CountryKeyOf(p));
  }

  // ---------------------------------------------------------------- delete

  /**
   * Delete of an absent id reports nothing and changes nothing; otherwise it
   * returns the movie with that id and removes exactly that movie, keeping
   * the related tables (no cascade to them).
   */
  lemma DeleteSpec(s: StoreState, id: int)
    requires Inv(s)
    ensures var (s', r) := DeleteStep(s, id);
      && (r.None? <==> FindMovie(s.movies, id).None?)
      && (r.None? ==> s' == s)
      && (r.Some? ==> r == FindMovie(s.movies, id))
      && (r.Some? ==> |s'.movies| == |s.movies| - 1)
      && (r.Some? ==> forall m :: m in s'.movies <==> m in s.movies && m.id != id)
      && FindMovie(s'.movies, id).None?
      && s'.genres == s.genres && s'.actors == s.actors
      && s'.languages == s.languages && s'.countries == s.countries
      && s'.nextMovieId == s.nextMovieId
  {
    var (s', r) := DeleteStep(s, id);
    var i := IndexOfId(s.movies, id);
    if i >= 0 {
      assert s.movies == s.movies[..i] + [s.movies[i]] + s.movies[i + 1..];
      forall m
        ensures m in s'.movies <==> m in s.movies && m.id != id
      {
        if m in s.movies && m.id == id {
          FindMovieUnique(s.movies, m);
        }
      }
    }
  }

  /** Delete keeps the store invariant: the remaining movies stay ordered and linked. */
  lemma DeletePreservesInv(s: StoreState, id: int)
    requires Inv(s)
    ensures Inv(DeleteStep(s, id).0)
  {
    var s' := DeleteStep(s, id).0;
    var i := IndexOfId(s.movies, id);
    if i >= 0 {
      forall k | 0 <= k < |s'.movies|
        ensures s'.movies[k] == s.movies[if k < i then k else k + 1]
      {
      }
      forall a, b | 0 <= a < b < |s'.movies|
        ensures s'.movies[a].id < s'.movies[b].id
      {
        assert s'.movies[a] == s.movies[if a < i then a else a + 1];
      }
    }
  }

  // ---------------------------------------------------------------- patch

  /**
   * Patch rejects an id below 1 (422), reports an unknown id (404) and a
   * failed commit (400) without changing anything; otherwise it replaces the
   * movie with that id by the patched one and leaves every other movie, the
   * related tables and the invariant as they were.
   */
  lemma UpdateSpec(s: StoreState, id: int, u: MovieUpdate, commitFails: bool)
    requires Inv(s)
    ensures var (s', r) := UpdateStep(s, id, u, commitFails);
      && (r == Err(Unprocessable) <==> id < 1)
      && (r == Err(NotFound) <==> id >= 1 && FindMovie(s.movies, id).None?)
      && (r == Err(BadRequest) <==> id >= 1 && FindMovie(s.movies, id).Some? && commitFails)
      && (r.Ok? <==> id >= 1 && FindMovie(s.movies, id).Some? && !commitFails)
      && (r.Err? ==> s' == s)
      && (r.Ok? ==> GetMovie(s', id) == Ok(ApplyPatch(FindMovie(s.movies, id).value, u)))
      && |s'.movies| == |s.movies|
      && (forall j :: 0 <= j < |s.movies| && s.movies[j].id != id ==> s'.movies[j] == s.movies[j])
      && s'.genres == s.genres && s'.actors == s.actors
      && s'.languages == s.languages && s'.countries == s.countries
      && s'.nextMovieId == s.nextMovieId
      && Inv(s')
  {
    var (s', r) := UpdateStep(s, id, u, commitFails);
    if r.Ok? {
      var i := IndexOfId(s.movies, id);
      forall j | 0 <= j < |s.movies| && s.movies[j].id != id
        ensures s'.movies[j] == s.movies[j]
      {
      }
      assert Linked(s'.movies[i], s') by {
        assert Linked(s.movies[i], s);
      }
      assert IdsAscending(s'.movies);
      FindMovieUnique(s'.movies, s'.movies[i]);
    }
  }

  /** An empty patch of an existing movie succeeds and changes nothing. */
  lemma EmptyPatchChangesNothing(s: StoreState, id: int)
    requires id >= 1 && FindMovie(s.movies, id).Some?
    ensures UpdateStep(s, id, EmptyUpdate, false) == (s, Ok(()))
  {
    var i := IndexOfId(s.movies, id);
    PatchEmptyAndIdempotent(s.movies[i], EmptyUpdate);
    assert s.movies[i := s.movies[i]] == s.movies;
  }

  /**
   * The patch endpoint performs no (name, date) check, so a patch can make
   * two movies share both: uniqueness is guaranteed by create only.
   */
  lemma PatchCanDuplicateNameDate()
    ensures exists s: StoreState, id: int, u: MovieUpdate ::
      && Inv(s) && NameDateUnique(s.movies)
      && UpdateStep(s, id, u, false).1.Ok?
      && !NameDateUnique(UpdateStep(s, id, u, false).0.movies)
  {
    var d := Date(2021, 10, 22);
    var c := Row(1, CountryKey("US", Some("US")));
    var a := Movie(1, "Dune", d, 80.0, "", Released, 0.0, 0.0, c, [], [], []);
    var b := Movie(2, "Arrival", d, 80.0, "", Released, 0.0, 0.0, c, [], [], []);
    var s := StoreState([a, b], 3, TableState([], 1), TableState([], 1), TableState([], 1), TableState([c], 2));
    var u := EmptyUpdate.(name := Some("Dune"));
    assert IndexOfId(s.movies, 2) == 1;
    var s' := UpdateStep(s, 2, u, false).0;
    assert s'.movies[0].name == s'.movies[1].name && s'.movies[0].date == s'.movies[1].date;
  }

  /**
   * The patch schema declares no bounds, so a patch can take a movie's score
   * outside the [0, 100] range that create enforces.
   */
  lemma PatchCanLeaveScoreRange(s: StoreState, id: int)
    requires Inv(s) && id >= 1 && FindMovie(s.movies, id).Some?
    ensures var (s', r) := UpdateStep(s, id, EmptyUpdate.(score := Some(150.0)), false);
            r.Ok? && GetMovie(s', id).Ok? && GetMovie(s', id).value.score > MaxScore
  {
    UpdateSpec(s, id, EmptyUpdate.(score := Some(150.0)), false);
  }
}
