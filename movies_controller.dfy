/** The film catalogue queries of the API
    (CineTicket/backend/CineTicket.API/Controllers/MoviesController.cs). Each action is a
    LINQ query over the `Movies` table, here a function of the table's rows; the clock
    reading `DateTime.Now` is the parameter `now`. */
module MoviesController {
  import opened Wrappers
  import Seqs
  import Sorting
  import Text

  /** A film row. Dates are instants on one clock; `endDate` is nullable; `rating` is in
      tenths, as the decimal(3,1) column holds it. */
  datatype Movie = Movie(id: int, title: string, genre: string, releaseDate: int,
                         endDate: Option<int>, rating: int)

  /** An action result: HTTP 404, or 200 with a body. */
  datatype Response<T> = NotFound | Ok(body: T)

  /** `GetMovie`: the film with that key, or NotFound. */
  function GetMovie(movies: seq<Movie>, id: int): (r: Response<Movie>)
    ensures r.NotFound? <==> forall m :: m in movies ==> m.id != id
    ensures r.Ok? ==> r.body in movies && r.body.id == id
  {
    if movies == [] then NotFound
    else if movies[0].id == id then Ok(movies[0])
    else GetMovie(movies[1..], id)
  }

  /** `m.ReleaseDate <= currentDate && m.EndDate >= currentDate`; a comparison with a
      null end date is false. */
  predicate IsNowShowing(now: int, m: Movie) {
    m.releaseDate <= now && m.endDate.Some? && m.endDate.value >= now
  }

  function NowShowingAt(now: int): Movie -> bool {
    (m: Movie) => IsNowShowing(now, m)
  }

  function ComingSoonAt(now: int): Movie -> bool {
    (m: Movie) => m.releaseDate > now
  }

  /** `now-showing`: exactly the films released by now whose end date is not before now,
      in table order. */
  function NowShowing(movies: seq<Movie>, now: int): (r: seq<Movie>)
    ensures forall m :: m in r <==>
              m in movies && m.releaseDate <= now && m.endDate.Some? && m.endDate.value >= now
    ensures forall m :: multiset(r)[m] ==
              if m.releaseDate <= now && m.endDate.Some? && m.endDate.value >= now then multiset(movies)[m] else 0
    ensures Seqs.IsSubseq(r, movies)
  {
    Seqs.FilterIsSubseq(movies, NowShowingAt(now));
    Seqs.Filter(movies, NowShowingAt(now))
  }

  /** `coming-soon`: exactly the films released after now, in table order. */
  function ComingSoon(movies: seq<Movie>, now: int): (r: seq<Movie>)
    ensures forall m :: m in r <==> m in movies && m.releaseDate > now
    ensures forall m :: multiset(r)[m] == if m.releaseDate > now then multiset(movies)[m] else 0
    ensures Seqs.IsSubseq(r, movies)
  {
    Seqs.FilterIsSubseq(movies, ComingSoonAt(now));
    Seqs.Filter(movies, ComingSoonAt(now))
  }

  /** No film is both showing and coming soon, and a film with no end date is never
      showing. */
  lemma NowShowingComingSoonDisjoint(movies: seq<Movie>, now: int)
    ensures forall m :: !(m in NowShowing(movies, now) && m in ComingSoon(movies, now))
    ensures forall m :: m in movies && m.endDate.None? ==> m !in NowShowing(movies, now)
  {
  }

  /** `OrderByDescending(m => m.Rating)`. */
  predicate RatedHigher(a: Movie, b: Movie) {
    a.rating >= b.rating
  }

  const PopularCount: nat := 10

  /** `popular`: the table by rating, highest first, cut to the first ten. */
  function Popular(movies: seq<Movie>): seq<Movie> {
    var sorted := Sorting.Sort(movies, RatedHigher);
    sorted[..if |sorted| < PopularCount then |sorted| else PopularCount]
  }

  /** The popular list holds ten films, or all of them when there are fewer, and its
      ratings never increase. */
  lemma PopularOrdered(movies: seq<Movie>)
    ensures |Popular(movies)| == if |movies| < PopularCount then |movies| else PopularCount
    ensures forall i, j :: 0 <= i < j < |Popular(movies)| ==> Popular(movies)[i].rating >= Popular(movies)[j].rating
  {
    Sorting.SortSorted(movies, RatedHigher);
  }

  lemma MultisetTake<T>(s: seq<T>, n: nat)
    requires n <= |s|
    ensures multiset(s) == multiset(s[..n]) + multiset(s[n..])
  {
    assert s == s[..n] + s[n..];
  }

  /** The popular list is drawn from the table, and no film left out rates higher than
      any film listed. */
  lemma PopularLeavesOutNoHigher(movies: seq<Movie>)
    ensures multiset(Popular(movies)) <= multiset(movies)
    ensures forall m, p :: m in multiset(movies) - multiset(Popular(movies)) && p in Popular(movies) ==>
              m.rating <= p.rating
  {
    var sorted := Sorting.Sort(movies, RatedHigher);
    var n := if |sorted| < PopularCount then |sorted| else PopularCount;
    assert Popular(movies) == sorted[..n];
    assert multiset(movies) - multiset(sorted[..n]) == multiset(sorted[n..]) by {
      MultisetTake(sorted, n);
    }
    assert forall x, y :: x in sorted[..n] && y in sorted[n..] ==> RatedHigher(x, y) by {
      Sorting.SortSorted(movies, RatedHigher);
      Sorting.SortedSplit(sorted, n, RatedHigher);
    }
    forall m, p | m in multiset(movies) - multiset(Popular(movies)) && p in Popular(movies)
      ensures m.rating <= p.rating
    {
      assert m in sorted[n..] by {
        assert m in multiset(sorted[n..]);
      }
      assert RatedHigher(p, m);
    }
  }

  function WithGenre(genre: string): Movie -> bool {
    (m: Movie) => Text.ToLower(m.genre) == Text.ToLower(genre)
  }

  /** `genre/{genre}`: the films whose genre equals the requested one ignoring case, or
      NotFound when there is none. */
  function ByGenre(movies: seq<Movie>, genre: string): (r: Response<seq<Movie>>)
    ensures r.NotFound? <==> forall m :: m in movies ==> Text.ToLower(m.genre) != Text.ToLower(genre)
    ensures r.Ok? ==> r.body != [] && Seqs.IsSubseq(r.body, movies)
    ensures r.Ok? ==> forall m :: m in r.body <==> m in movies && Text.ToLower(m.genre) == Text.ToLower(genre)
    ensures r.Ok? ==>
              forall m :: multiset(r.body)[m] == if Text.ToLower(m.genre) == Text.ToLower(genre) then multiset(movies)[m] else 0
  {
    Seqs.FilterIsSubseq(movies, WithGenre(genre));
    var found := Seqs.Filter(movies, WithGenre(genre));
    if found == [] then NotFound else Ok(found)
  }

  /** The genre query does not depend on the case of the request. */
  lemma ByGenreIgnoresCase(movies: seq<Movie>, genre: string)
    ensures ByGenre(movies, genre) == ByGenre(movies, Text.ToLower(genre))
  {
    Text.ToLowerIdempotent(genre);
    assert WithGenre(genre) == WithGenre(Text.ToLower(genre));
  }

  function MovieGenre(m: Movie): string {
    m.genre
  }

  function NonEmpty(g: string): bool {
    g != ""
  }

  /** `genres`: each non-empty genre of the table once, in order of first occurrence. */
  function Genres(movies: seq<Movie>): (r: seq<string>)
    ensures Seqs.Distinct(r)
    ensures forall g :: g in r <==> g != "" && exists m :: m in movies && m.genre == g
  {
    var all := Seqs.Map(movies, MovieGenre);
    var r := Seqs.Dedup(Seqs.Filter(all, NonEmpty));
    assert forall g :: (exists m :: m in movies && m.genre == g) <==> g in all by {
      forall g | exists m :: m in movies && m.genre == g ensures g in all {
        var m :| m in movies && m.genre == g;
        var k :| 0 <= k < |movies| && movies[k] == m;
        assert all[k] == g;
      }
      forall g | g in all ensures exists m :: m in movies && m.genre == g {
        var k :| 0 <= k < |all| && all[k] == g;
        assert movies[k] in movies && movies[k].genre == g;
      }
    }
    r
  }
}
