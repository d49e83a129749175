/**
 * The catalog as the handlers see it: one object holding the movie table
 * and the four related tables, changed in place by create, delete and patch.
 */
module CatalogStore {
  import opened Wrappers
  import opened Schemas
  import opened Tables
  import opened Movies
  import opened Catalog

  class Store {
    var movies: seq<Movie>
    var nextMovieId: int
    const genres: Table<string>
    const actors: Table<string>
    const languages: Table<string>
    const countries: Table<CountryKey>

    /** The tables' contents as one value. */
    function State(): StoreState
      reads this, genres, actors, languages, countries
    {
      StoreState(movies, nextMovieId, genres.State(), actors.State(), languages.State(), countries.State())
    }

    ghost predicate Valid()
      reads this, genres, actors, languages, countries
    {
      && genres != actors && genres != languages && actors != languages
      && Inv(State())
    }

    constructor ()
      ensures Valid() && State() == EmptyStore
      ensures fresh(genres) && fresh(actors) && fresh(languages) && fresh(countries)
    {
      movies := [];
      nextMovieId := 1;
      genres := new Table();
      actors := new Table();
      languages := new Table();
      countries := new Table();
    }

    /** create_movie (route and data access layer alike). */
    method CreateMovie(p: MovieCreate) returns (r: Result<Movie>)
      requires Valid()
      modifies this, genres, actors, languages, countries
      ensures Valid()
      ensures (State(), r) == CreateStep(old(State()), p)
    {
      CreatePreservesInv(State(), p);
      if !ValidCreate(p) {
        return Err(Unprocessable);
      }
      if HasNameDate(movies, p.name, p.date) {
        return Err(Conflict);
      }
      var genreRows := genres.GetOrCreateAll(p.genres);
      var actorRows := actors.GetOrCreateAll(p.actors);
      var languageRows := languages.GetOrCreateAll(p.languages);
      var countryRow := countries.GetOrCreate(CountryKeyOf(p));
      var m := Movie(nextMovieId, p.name, p.date, p.score, p.overview, p.status,
                     p.budget, p.revenue, countryRow, genreRows, actorRows, languageRows);
      movies := movies + [m];
      nextMovieId := nextMovieId + 1;
      r := Ok(m);
    }

    /** delete_movie of the data access layer: None when the id is absent. */
    method DeleteMovie(id: int) returns (r: Option<Movie>)
      requires Valid()
      modifies this
      ensures Valid()
      ensures (State(), r) == DeleteStep(old(State()), id)
    {
      DeletePreservesInv(State(), id);
      var i := IndexOfId(movies, id);
      if i < 0 {
        return None;
      }
      r := Some(movies[i]);
      movies := movies[..i] + movies[i + 1..];
    }

    /** The delete route: 404 when the id is absent. */
    method DeleteMovieHandler(id: int) returns (r: Result<Movie>)
      requires Valid()
      modifies this
      ensures Valid()
      ensures (State(), r) == DeleteHandlerStep(old(State()), id)
    {
      var deleted := DeleteMovie(id);
      match deleted
      case None => r := Err(NotFound);
      case Some(m) => r := Ok(m);
    }

    /** update_movie: patch the fields the payload carries; `commitFails` stands for a failing commit. */
    method UpdateMovie(id: int, u: MovieUpdate, commitFails: bool) returns (r: Result<()>)
      requires Valid()
      modifies this
      ensures Valid()
      ensures (State(), r) == UpdateStep(old(State()), id, u, commitFails)
    {
      UpdateSpec(State(), id, u, commitFails);
      if id < 1 {
        return Err(Unprocessable);
      }
      var i := IndexOfId(movies, id);
      if i < 0 {
        return Err(NotFound);
      }
      if commitFails {
        return Err(BadRequest);
      }
      movies := movies[i := ApplyPatch(movies[i], u)];
      r := Ok(());
    }
  }
}
