/**
 * Request and response shapes of the movie endpoints, with the field
 * constraints the schemas declare.
 */
module Schemas {
  import opened Wrappers

  /** `name: str = Field(max_length=255)` on the base movie schema. */
  const MaxNameLength: nat := 255
  /** `score: float = Field(ge=0, le=100)` on the create schema. */
  const MinScore: real := 0.0
  const MaxScore: real := 100.0

  /** A release date; the model only compares dates for equality. */
  datatype Date = Date(year: int, month: int, day: int)

  /** The three production states a movie can be in. */
  datatype Status = Released | PostProduction | InProduction

  /** The string value of each enum member. */
  function Label(s: Status): string
  {
    match s
    case Released => "Released"
    case PostProduction => "Post Production"
    case InProduction => "In Production"
  }

  /** How an incoming status string is read: exactly the three labels are accepted. */
  function ParseStatus(text: string): (r: Option<Status>)
    ensures r.Some? ==> Label(r.value) == text
    ensures r.None? <==> text != "Released" && text != "Post Production" && text != "In Production"
  {
    if text == "Released" then Some(Released)
    else if text == "Post Production" then Some(PostProduction)
    else if text == "In Production" then Some(InProduction)
    else None
  }

  /** Every status survives being written out and read back. */
  lemma StatusRoundTrip(s: Status)
    ensures ParseStatus(Label(s)) == Some(s)
  {
  }

  /** Natural key of a country row: the code is required, the display name optional. */
  datatype CountryKey = CountryKey(code: string, name: Option<string>)

  /** Body of POST /movies/. */
  datatype MovieCreate = MovieCreate(
    name: string,
    date: Date,
    score: real,
    overview: string,
    status: Status,
    budget: real,
    revenue: real,
    country: string,
    genres: seq<string>,
    actors: seq<string>,
    languages: seq<string>)

  /** The field constraints of the create schema. */
  predicate ValidCreate(p: MovieCreate)
  {
    && |p.name| <= MaxNameLength
    && MinScore <= p.score <= MaxScore
    && p.budget >= 0.0
    && p.revenue >= 0.0
  }

  /**
   * Each bounded field of the create body is checked on its own and its
   * bounds are inclusive (`max_length`, `ge`, `le`): starting from a valid
   * body, changing one field keeps it valid exactly when the new value lies
   * within that field's bounds; the unbounded fields never matter.
   */
  lemma CreateBoundsInclusive(p: MovieCreate)
    requires ValidCreate(p)
    ensures forall n: string :: ValidCreate(p.(name := n)) <==> |n| <= MaxNameLength
    ensures forall x: real :: ValidCreate(p.(score := x)) <==> MinScore <= x <= MaxScore
    ensures forall b: real :: ValidCreate(p.(budget := b)) <==> b >= 0.0
    ensures forall v: real :: ValidCreate(p.(revenue := v)) <==> v >= 0.0
    ensures forall d: Date, o: string, st: Status, c: string, g: seq<string>, a: seq<string>, l: seq<string> ::
      ValidCreate(p.(date := d, overview := o, status := st, country := c, genres := g, actors := a, languages := l))
  {
  }

  /**
   * Body of PATCH /movies/{id}/: every field is optional, None meaning
   * "not sent". The schema declares no bounds on any of them.
   */
  datatype MovieUpdate = MovieUpdate(
    name: Option<string>,
    date: Option<Date>,
    score: Option<real>,
    overview: Option<string>,
    status: Option<Status>,
    budget: Option<real>,
    revenue: Option<real>)

  const EmptyUpdate := MovieUpdate(None, None, None, None, None, None, None)

  /** The patchable fields of a movie, named. */
  datatype Field = NameField | DateField | ScoreField | OverviewField | StatusField | BudgetField | RevenueField

  /** The fields a patch payload carries. */
  function PresentFields(u: MovieUpdate): (fs: set<Field>)
    ensures u == EmptyUpdate <==> fs == {}
  {
    (if u.name.Some? then {NameField} else {})
    + (if u.date.Some? then {DateField} else {})
    + (if u.score.Some? then {ScoreField} else {})
    + (if u.overview.Some? then {OverviewField} else {})
    + (if u.status.Some? then {StatusField} else {})
    + (if u.budget.Some? then {BudgetField} else {})
    + (if u.revenue.Some? then {RevenueField} else {})
  }

  /** A link to another page of the movie list, as page number and page size. */
  datatype PageLink = PageLink(page: int, perPage: int)

  /** One entry of the movie list. */
  datatype ListItem = ListItem(id: int, name: string, date: Date, score: real, overview: string)

  /** Response of GET /movies/. */
  datatype ListResponse = ListResponse(
    movies: seq<ListItem>,
    totalItems: int,
    totalPages: int,
    prevPage: Option<PageLink>,
    nextPage: Option<PageLink>)
}
