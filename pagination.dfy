/**
 * The paginated movie list: the page query of the data access layer and the
 * page arithmetic and navigation links of GET /movies/.
 */
module Pagination {
  import opened Wrappers
  import opened Schemas
  import opened Movies

  /** `page: int = Query(1, ge=1)`, `per_page: int = Query(10, ge=1, le=20)`. */
  const DefaultPage: int := 1
  const DefaultPerPage: int := 10
  const MaxPerPage: int := 20

  /** The query parameters the route accepts. */
  predicate ValidQuery(page: int, perPage: int)
  {
    page >= 1 && 1 <= perPage <= MaxPerPage
  }

  /** The number of rows skipped before a page. */
  function Offset(page: int, perPage: int): (o: int)
    requires page >= 1 && perPage >= 1
    ensures o >= 0
  {
    (page - 1) * perPage
  }

  lemma MulMonotone(a: int, b: int, p: int)
    requires 0 <= a <= b && p >= 0
    ensures a * p <= b * p
  {
    assert b * p - a * p == (b - a) * p;
  }

  /** `(count + per_page - 1) // per_page`: the number of pages, the ceiling of count / per_page. */
  function PageCount(count: int, perPage: int): (n: int)
    requires count >= 0 && perPage >= 1
    ensures n >= 0
    ensures n * perPage >= count
    ensures n == 0 || (n - 1) * perPage < count
    ensures n == 0 <==> count == 0
  {
    var q := (count + perPage - 1) / perPage;
    var r := (count + perPage - 1) % perPage;
    assert count + perPage - 1 == q * perPage + r && 0 <= r < perPage;
    assert (q - 1) * perPage == q * perPage - perPage;
    q
  }

  /**
   * get_movies: `offset((page-1)*per_page).limit(per_page)` over the movies
   * ordered by descending id; an empty result is a 404.
   */
  function SelectPage(movies: seq<Movie>, perPage: int, page: int): (r: Result<seq<Movie>>)
    requires page >= 1 && perPage >= 1
    ensures r.Err? ==> r.error == NotFound
    ensures r.Err? <==> Offset(page, perPage) >= |movies|
    ensures r.Ok? ==> 1 <= |r.value| <= perPage
    ensures r.Ok? ==> |r.value| == if Offset(page, perPage) + perPage <= |movies| then perPage else |movies| - Offset(page, perPage)
    ensures r.Ok? ==> Offset(page, perPage) + |r.value| <= |movies|
    ensures r.Ok? ==> r.value == NewestFirst(movies)[Offset(page, perPage)..Offset(page, perPage) + |r.value|]
  {
    var offset := Offset(page, perPage);
    var ordered := NewestFirst(movies);
    var end := if offset + perPage <= |ordered| then offset + perPage else |ordered|;
    var rows := if offset < |ordered| then ordered[offset..end] else [];
    if |rows| == 0 then Err(NotFound) else Ok(rows)
  }

  /** The link to the previous page, absent on the first page. */
  function PrevPage(page: int, perPage: int): Option<PageLink>
  {
    if page <= 1 then None else Some(PageLink(page - 1, perPage))
  }

  /** The link to the next page, absent on the last page and beyond. */
  function NextPage(page: int, perPage: int, pageCount: int): Option<PageLink>
  {
    if page >= pageCount then None else Some(PageLink(page + 1, perPage))
  }

  /** GET /movies/?page=&per_page= over the movie table. */
  function ListMovies(movies: seq<Movie>, page: int, perPage: int): (r: Result<ListResponse>)
    ensures r == Err(Unprocessable) <==> !ValidQuery(page, perPage)
    ensures r.Err? ==> r.error == Unprocessable || r.error == NotFound
    ensures r.Ok? ==> r.value.totalItems == |movies| && 1 <= |r.value.movies| <= perPage
  {
    if !ValidQuery(page, perPage) then Err(Unprocessable)
    else
      match SelectPage(movies, perPage, page)
      case Err(e) => Err(e)
      case Ok(rows) =>
        var count := |movies|;
        var pageCount := PageCount(count, perPage);
        Ok(ListResponse(ListItems(rows), count, pageCount, PrevPage(page, perPage), NextPage(page, perPage, pageCount)))
  }

  /**
   * The list route as a request reaches it: an omitted parameter takes its
   * default, page 1 and 10 per page, each independently of the other. The
   * bare request succeeds exactly when the catalog has a movie, and then
   * shows the newest (up to) ten movies, counts the whole table, has no
   * previous link and has a next link exactly when more than ten exist.
   */
  function ListMoviesRequest(movies: seq<Movie>, page: Option<int>, perPage: Option<int>): (r: Result<ListResponse>)
    ensures page.None? ==> r == ListMovies(movies, DefaultPage, Or(perPage, DefaultPerPage))
    ensures perPage.None? ==> r == ListMovies(movies, Or(page, DefaultPage), DefaultPerPage)
    ensures page.Some? && perPage.Some? ==> r == ListMovies(movies, page.value, perPage.value)
    ensures page.None? && perPage.None? ==> (r.Ok? <==> |movies| > 0)
    ensures page.None? && perPage.None? && r.Ok? ==>
      && |r.value.movies| == (if |movies| < DefaultPerPage then |movies| else DefaultPerPage)
      && r.value.movies == ListItems(NewestFirst(movies)[..|r.value.movies|])
      && r.value.totalItems == |movies|
      && r.value.prevPage.None?
      && (r.value.nextPage.None? <==> |movies| <= DefaultPerPage)
  {
    ListMovies(movies, Or(page, DefaultPage), Or(perPage, DefaultPerPage))
  }

  /** A page is non-empty exactly when its number is at most the page count. */
  lemma PageNonEmptyIff(movies: seq<Movie>, perPage: int, page: int)
    requires page >= 1 && perPage >= 1
    ensures SelectPage(movies, perPage, page).Ok? <==> page <= PageCount(|movies|, perPage)
  {
    var n := PageCount(|movies|, perPage);
    if page <= n {
      MulMonotone(page - 1, n - 1, perPage);
    } else {
      MulMonotone(n, page - 1, perPage);
    }
  }

  /**
   * With an accepted query, the list is a 404 exactly for the pages past the
   * last one; with no movies at all that is every page, page 1 included.
   */
  lemma ListNotFoundIff(movies: seq<Movie>, page: int, perPage: int)
    requires ValidQuery(page, perPage)
    ensures ListMovies(movies, page, perPage) == Err(NotFound) <==> page > PageCount(|movies|, perPage)
    ensures |movies| == 0 ==> ListMovies(movies, page, perPage) == Err(NotFound)
  {
    PageNonEmptyIff(movies, perPage, page);
  }

  /**
   * A successful list response: the totals describe the whole table, the
   * page is the selected slice, and the links point one page back and
   * forward with the same page size, strictly inside the page range.
   */
  lemma ListResponseShape(movies: seq<Movie>, page: int, perPage: int)
    requires ListMovies(movies, page, perPage).Ok?
    ensures var resp := ListMovies(movies, page, perPage).value;
      && ValidQuery(page, perPage)
      && resp.totalItems == |movies|
      && resp.totalPages == PageCount(|movies|, perPage)
      && 1 <= page <= resp.totalPages
      && 1 <= |resp.movies| <= perPage
      && resp.movies == ListItems(SelectPage(movies, perPage, page).value)
      && (resp.prevPage.None? <==> page <= 1)
      && (resp.prevPage.Some? ==> resp.prevPage.value == PageLink(page - 1, perPage))
      && (resp.nextPage.None? <==> page >= resp.totalPages)
      && (resp.nextPage.Some? ==> resp.nextPage.value == PageLink(page + 1, perPage))
  {
    PageNonEmptyIff(movies, perPage, page);
  }

  /** Following a link of a successful list response always lands on a non-empty page. */
  lemma LinksLeadToPages(movies: seq<Movie>, page: int, perPage: int)
    requires ListMovies(movies, page, perPage).Ok?
    ensures var resp := ListMovies(movies, page, perPage).value;
      && (resp.prevPage.Some? ==> ListMovies(movies, resp.prevPage.value.page, resp.prevPage.value.perPage).Ok?)
      && (resp.nextPage.Some? ==> ListMovies(movies, resp.nextPage.value.page, resp.nextPage.value.perPage).Ok?)
  {
    var resp := ListMovies(movies, page, perPage).value;
    ListResponseShape(movies, page, perPage);
    if resp.prevPage.Some? {
      PageNonEmptyIff(movies, perPage, page - 1);
    }
    if resp.nextPage.Some? {
      PageNonEmptyIff(movies, perPage, page + 1);
    }
  }

  /** A selected page lists its movies newest first. */
  lemma PageOrdered(movies: seq<Movie>, perPage: int, page: int)
    requires IdsAscending(movies)
    requires page >= 1 && perPage >= 1
    requires SelectPage(movies, perPage, page).Ok?
    ensures var rows := SelectPage(movies, perPage, page).value;
            forall i, j :: 0 <= i < j < |rows| ==> rows[i].id > rows[j].id
  {
    NewestFirstOrdered(movies);
  }

  /** Two different pages of the same table share no movie. */
  lemma PagesDisjoint(movies: seq<Movie>, perPage: int, p1: int, p2: int)
    requires IdsAscending(movies)
    requires 1 <= p1 < p2 && perPage >= 1
    requires SelectPage(movies, perPage, p1).Ok? && SelectPage(movies, perPage, p2).Ok?
    ensures var a, b := SelectPage(movies, perPage, p1).value, SelectPage(movies, perPage, p2).value;
            forall i, j :: 0 <= i < |a| && 0 <= j < |b| ==> a[i].id != b[j].id
  {
    var a, b := SelectPage(movies, perPage, p1).value, SelectPage(movies, perPage, p2).value;
    var o1, o2 := Offset(p1, perPage), Offset(p2, perPage);
    MulMonotone(p1, p2 - 1, perPage);
    assert o1 + perPage <= o2;
    NewestFirstOrdered(movies);
    forall i, j | 0 <= i < |a| && 0 <= j < |b|
      ensures a[i].id != b[j].id
    {
      assert a[i] == NewestFirst(movies)[o1 + i];
      assert b[j] == NewestFirst(movies)[o2 + j];
    }
  }
}
