/** The derivations and review handlers of the film detail page
    (CineTicket/frontend/src/pages/MovieDetailPage.tsx): the screening dates on offer,
    the date filter, the grouping by cinema, the similar-films list, the review list the
    page keeps beside the store, and the author name and picture fallbacks. */
module MovieDetail {
  import opened Wrappers
  import Seqs
  import Sorting
  import Text
  import ReviewService

  const MsPerDay: int := 86400000

  datatype Cinema = Cinema(id: int, name: string, address: string)

  /** A screening; `startTime` is in milliseconds since the epoch. */
  datatype Screening = Screening(id: int, startTime: int, cinema: Cinema)

  /** `new Date(startTime).toISOString().split('T')[0]`: the UTC calendar day, here
      as a day number (Dafny's `/` rounds down, as the calendar does). */
  function DayOf(s: Screening): int {
    s.startTime / MsPerDay
  }

  /** `[...new Set(screenings.map(day))].sort()`. */
  function AvailableDates(screenings: seq<Screening>): seq<int> {
    Sorting.Sort(Seqs.Dedup(Seqs.Map(screenings, DayOf)), Sorting.IntLe)
  }

  /** The dates on offer are strictly increasing (so without repeats) and are exactly
      the days on which some screening starts. */
  lemma AvailableDatesSpec(screenings: seq<Screening>)
    ensures forall i, j :: 0 <= i < j < |AvailableDates(screenings)| ==>
              AvailableDates(screenings)[i] < AvailableDates(screenings)[j]
    ensures forall d :: d in AvailableDates(screenings) <==>
              exists k :: 0 <= k < |screenings| && DayOf(screenings[k]) == d
  {
    var days := Seqs.Map(screenings, DayOf);
    var unique := Seqs.Dedup(days);
    var r := AvailableDates(screenings);
    Sorting.IntLeTotalPreorder();
    Sorting.SortSorted(unique, Sorting.IntLe);
    Seqs.DistinctPermutation(unique, r);
    Sorting.SortedDistinctIncreasing(r);
    forall d ensures d in r <==> exists k :: 0 <= k < |screenings| && DayOf(screenings[k]) == d {
      assert d in r <==> d in multiset(unique);
      if d in days {
        var k :| 0 <= k < |days| && days[k] == d;
        assert DayOf(screenings[k]) == d;
      }
    }
  }

  function OnDay(day: int): Screening -> bool {
    (s: Screening) => DayOf(s) == day
  }

  /** `selectedDate ? screenings.filter(on that day) : screenings`; `None` is the
      empty string. */
  function FilteredScreenings(screenings: seq<Screening>, selectedDate: Option<int>): (r: seq<Screening>)
    ensures selectedDate.None? ==> r == screenings
    ensures selectedDate.Some? ==> forall s :: s in r <==> s in screenings && DayOf(s) == selectedDate.value
    ensures selectedDate.Some? ==>
              forall s :: multiset(r)[s] == if DayOf(s) == selectedDate.value then multiset(screenings)[s] else 0
    ensures Seqs.IsSubseq(r, screenings)
  {
    match selectedDate
    case None =>
      Seqs.FilterKeepsAll(screenings, (s: Screening) => true);
      Seqs.FilterIsSubseq(screenings, (s: Screening) => true);
      screenings
    case Some(day) =>
      Seqs.FilterIsSubseq(screenings, OnDay(day));
      Seqs.Filter(screenings, OnDay(day))
  }

  /** One entry of `screeningsByCinema`. */
  datatype Group = Group(cinema: Cinema, screenings: seq<Screening>)

  function AtCinema(cinemaId: int): Screening -> bool {
    (s: Screening) => s.cinema.id == cinemaId
  }

  /** The cinema ids occurring in `xs`. */
  function CinemaIds(xs: seq<Screening>): set<int> {
    set k | 0 <= k < |xs| :: xs[k].cinema.id
  }

  /** What the `reduce` accumulator satisfies after the screenings `xs`. */
  ghost predicate GroupsOf(acc: map<int, Group>, xs: seq<Screening>) {
    && acc.Keys == CinemaIds(xs)
    && forall id :: id in acc ==>
         && acc[id].screenings == Seqs.Filter(xs, AtCinema(id))
         && acc[id].screenings != []
         && acc[id].cinema == acc[id].screenings[0].cinema
  }

  /** One step of the reducer: create the group when missing, then push. */
  function Push(acc: map<int, Group>, s: Screening): map<int, Group> {
    var g := if s.cinema.id in acc then acc[s.cinema.id] else Group(s.cinema, []);
    acc[s.cinema.id := g.(screenings := g.screenings + [s])]
  }

  lemma CinemaIdsSnoc(xs: seq<Screening>, s: Screening)
    ensures CinemaIds(xs + [s]) == CinemaIds(xs) + {s.cinema.id}
  {
    assert (xs + [s])[|xs|] == s;
    forall id | id in CinemaIds(xs) ensures id in CinemaIds(xs + [s]) {
      var k :| 0 <= k < |xs| && xs[k].cinema.id == id;
      assert (xs + [s])[k] == xs[k];
    }
  }

  lemma FilterAbsentCinema(xs: seq<Screening>, id: int)
    requires id !in CinemaIds(xs)
    ensures Seqs.Filter(xs, AtCinema(id)) == []
  {
    forall x | x in xs ensures x.cinema.id != id {
      var k :| 0 <= k < |xs| && xs[k] == x;
      assert xs[k].cinema.id in CinemaIds(xs);
    }
  }

  /** The reducer step keeps the accumulator invariant. */
  lemma PushKeepsGroups(acc: map<int, Group>, xs: seq<Screening>, s: Screening)
    requires GroupsOf(acc, xs)
    ensures GroupsOf(Push(acc, s), xs + [s])
  {
    var next := Push(acc, s);
    assert next.Keys == CinemaIds(xs + [s]) by {
      CinemaIdsSnoc(xs, s);
    }
    forall id | id in next
      ensures next[id].screenings == Seqs.Filter(xs + [s], AtCinema(id))
      ensures next[id].screenings != [] && next[id].cinema == next[id].screenings[0].cinema
    {
      Seqs.FilterSnoc(xs, s, AtCinema(id));
      if id == s.cinema.id && id !in acc {
        FilterAbsentCinema(xs, id);
      }
    }
  }

  /** `filteredScreenings.reduce(...)`: one group per cinema id, holding, in order,
      exactly the screenings at that cinema, under the cinema of the first of them. */
  method GroupByCinema(filtered: seq<Screening>) returns (acc: map<int, Group>)
    ensures acc.Keys == CinemaIds(filtered)
    ensures forall id :: id in acc ==> acc[id].screenings == Seqs.Filter(filtered, AtCinema(id))
    ensures forall id :: id in acc ==> acc[id].screenings != [] && acc[id].cinema == acc[id].screenings[0].cinema
    ensures forall id, s :: id in acc ==> (s in acc[id].screenings <==> s in filtered && s.cinema.id == id)
  {
    acc := map[];
    for i := 0 to |filtered|
      invariant GroupsOf(acc, filtered[..i])
    {
      var screening := filtered[i];
      var cinemaId := screening.cinema.id;
      ghost var prev := acc;
      if cinemaId !in acc {
        acc := acc[cinemaId := Group(screening.cinema, [])];
      }
      acc := acc[cinemaId := acc[cinemaId].(screenings := acc[cinemaId].screenings + [screening])];
      assert acc == Push(prev, screening);
      PushKeepsGroups(prev, filtered[..i], screening);
      assert filtered[..i + 1] == filtered[..i] + [screening];
    }
    assert filtered[..|filtered|] == filtered;
  }

  /** A film card as `getAllMovies` returns it; a missing or non-string `genres` or
      `genre` is "". */
  datatype MovieCard = MovieCard(id: int, genres: string, genre: string)

  /** The similar-films test: another film whose `genres` or `genre` string contains
      the current film's `genres` string. */
  predicate IsSimilar(current: MovieCard, m: MovieCard) {
    m.id != current.id &&
    ((m.genres != "" && Text.Contains(m.genres, current.genres)) ||
     (m.genre != "" && Text.Contains(m.genre, current.genres)))
  }

  function SimilarTo(current: MovieCard): MovieCard -> bool {
    (m: MovieCard) => IsSimilar(current, m)
  }

  function Min(a: nat, b: nat): nat {
    if a <= b then a else b
  }

  /** The similar-films list: `None` when the current film has no `genres` (the list
      is not set), else the first four films that match. */
  function SimilarMovies(current: MovieCard, all: seq<MovieCard>): (r: Option<seq<MovieCard>>)
    ensures r.None? <==> current.genres == ""
    ensures r.Some? ==> |r.value| <= 4
    ensures r.Some? ==> forall m :: m in r.value ==>
              && m in all && m.id != current.id
              && (Text.Contains(m.genres, current.genres) || Text.Contains(m.genre, current.genres))
    ensures r.Some? ==> Seqs.IsSubseq(r.value, all)
    ensures r.Some? && |r.value| < 4 ==> forall m :: m in all && IsSimilar(current, m) ==> m in r.value
    ensures r.Some? ==>
              var matches := Seqs.Filter(all, SimilarTo(current));
              |r.value| == Min(4, |matches|) && r.value <= matches
  {
    if current.genres == "" then None
    else
      var matches := Seqs.Filter(all, SimilarTo(current));
      Seqs.FilterIsSubseq(all, SimilarTo(current));
      var shown := matches[..Min(4, |matches|)];
      PrefixIsSubseq(matches, Min(4, |matches|), all);
      assert |shown| < 4 ==> shown == matches;
      assert forall m :: m in shown ==> m in matches && SimilarTo(current)(m);
      Some(shown)
  }

  lemma {:induction false} PrefixIsSubseq(a: seq<MovieCard>, n: nat, b: seq<MovieCard>)
    requires n <= |a| && Seqs.IsSubseq(a, b)
    ensures Seqs.IsSubseq(a[..n], b)
    decreases |b|
  {
    if n > 0 {
      if a[0] == b[0] && Seqs.IsSubseq(a[1..], b[1..]) {
        PrefixIsSubseq(a[1..], n - 1, b[1..]);
        assert a[..n][1..] == a[1..][..n - 1];
      } else {
        PrefixIsSubseq(a, n, b[1..]);
      }
    }
  }

  /** `reviews.map(r => r.id === updated.id ? updated : r)`. */
  function ReplaceById(reviews: seq<ReviewService.Review>, updated: ReviewService.Review): (r: seq<ReviewService.Review>)
    ensures |r| == |reviews|
    ensures forall i :: 0 <= i < |r| ==> r[i] == (if reviews[i].id == updated.id then updated else reviews[i])
  {
    if reviews == [] then []
    else [if reviews[0].id == updated.id then updated else reviews[0]] + ReplaceById(reviews[1..], updated)
  }

  lemma ReplaceConcat(a: seq<ReviewService.Review>, b: seq<ReviewService.Review>, e: ReviewService.Review)
    ensures ReplaceById(a + b, e) == ReplaceById(a, e) + ReplaceById(b, e)
  {
    var l, r := ReplaceById(a + b, e), ReplaceById(a, e) + ReplaceById(b, e);
    forall i | 0 <= i < |l| ensures l[i] == r[i] {
      if i < |a| {
        assert (a + b)[i] == a[i];
      } else {
        assert (a + b)[i] == b[i - |a|];
      }
    }
  }

  lemma ReplaceAbsent(a: seq<ReviewService.Review>, e: ReviewService.Review)
    requires forall x :: x in a ==> x.id != e.id
    ensures ReplaceById(a, e) == a
  {
  }

  /** Replacing the one review with `e`'s id, between reviews without it, commutes with
      the film filter. */
  lemma EditMiddle(before: seq<ReviewService.Review>, x: ReviewService.Review,
                   after: seq<ReviewService.Review>, e: ReviewService.Review, movieId: int)
    requires x.id == e.id && x.movieId == e.movieId
    requires forall y :: y in before ==> y.id != e.id
    requires forall y :: y in after ==> y.id != e.id
    ensures ReplaceById(ReviewService.ReviewsByMovie(before + [x] + after, movieId), e) ==
            ReviewService.ReviewsByMovie(before + [e] + after, movieId)
  {
    var p := ReviewService.ForMovie(movieId);
    Seqs.FilterConcat(before + [x], after, p);
    Seqs.FilterConcat(before, [x], p);
    Seqs.FilterConcat(before + [e], after, p);
    Seqs.FilterConcat(before, [e], p);
    var fb, fx, fa := Seqs.Filter(before, p), Seqs.Filter([x], p), Seqs.Filter(after, p);
    ReplaceAbsent(fb, e);
    ReplaceAbsent(fa, e);
    ReplaceConcat(fb + fx, fa, e);
    ReplaceConcat(fb, fx, e);
    assert fx == (if p(x) then [x] else []);
    assert Seqs.Filter([e], p) == (if p(e) then [e] else []);
  }

  /** The page's list stays the store's view of the film after an edit: replacing by id
      in the filtered list gives the filtered list of the store after its in-place
      update, when the id occurs once in the store. */
  lemma EditKeepsViewInStep(all: seq<ReviewService.Review>, idx: nat, e: ReviewService.Review, movieId: int)
    requires idx < |all| && e.id == all[idx].id && e.movieId == all[idx].movieId
    requires forall j :: 0 <= j < |all| && j != idx ==> all[j].id != e.id
    ensures ReplaceById(ReviewService.ReviewsByMovie(all, movieId), e) ==
            ReviewService.ReviewsByMovie(all[idx := e], movieId)
  {
    var before, after := all[..idx], all[idx + 1..];
    IdOnlyAt(all, idx, e.id);
    calc {
      ReplaceById(ReviewService.ReviewsByMovie(all, movieId), e);
      { assert all == before + [all[idx]] + after; }
      ReplaceById(ReviewService.ReviewsByMovie(before + [all[idx]] + after, movieId), e);
      { EditMiddle(before, all[idx], after, e, movieId); }
      ReviewService.ReviewsByMovie(before + [e] + after, movieId);
      { assert all[idx := e] == before + [e] + after; }
      ReviewService.ReviewsByMovie(all[idx := e], movieId);
    }
  }

  /** An id found at no other position than `idx` is absent before and after it. */
  lemma IdOnlyAt(all: seq<ReviewService.Review>, idx: nat, id: int)
    requires idx < |all| && forall j :: 0 <= j < |all| && j != idx ==> all[j].id != id
    ensures forall y :: y in all[..idx] ==> y.id != id
    ensures forall y :: y in all[idx + 1..] ==> y.id != id
  {
    forall y | y in all[..idx] ensures y.id != id {
      var j :| 0 <= j < idx && all[..idx][j] == y;
      assert all[j] == y;
    }
    forall y | y in all[idx + 1..] ensures y.id != id {
      var j :| 0 <= j < |all| - idx - 1 && all[idx + 1..][j] == y;
      assert all[idx + 1 + j] == y;
    }
  }

  /** With unique ids, the entry at `idx` is the only one with its id. */
  lemma UniqueIdsAt(all: seq<ReviewService.Review>, idx: nat)
    requires ReviewService.UniqueIds(all) && idx < |all|
    ensures forall j :: 0 <= j < |all| && j != idx ==> all[j].id != all[idx].id
  {
  }

  /** The page's list stays the store's view after a delete. */
  lemma DeleteKeepsViewInStep(all: seq<ReviewService.Review>, reviewId: int, movieId: int)
    ensures Seqs.Filter(ReviewService.ReviewsByMovie(all, movieId), ReviewService.NotReviewId(reviewId)) ==
            ReviewService.ReviewsByMovie(Seqs.Filter(all, ReviewService.NotReviewId(reviewId)), movieId)
  {
    Seqs.FilterCommutes(all, ReviewService.ForMovie(movieId), ReviewService.NotReviewId(reviewId));
  }

  /** After a create the page shows the same reviews as the store's view, but with the
      new one first where the store has it last. */
  lemma CreateReordersView(all: seq<ReviewService.Review>, n: ReviewService.Review, movieId: int)
    requires n.movieId == movieId
    ensures multiset([n] + ReviewService.ReviewsByMovie(all, movieId)) ==
            multiset(ReviewService.ReviewsByMovie(all + [n], movieId))
    ensures ReviewService.ReviewsByMovie(all + [n], movieId) == ReviewService.ReviewsByMovie(all, movieId) + [n]
  {
    ReviewService.ReviewsByMovieAfterAppend(all, n, movieId);
  }

  /** The review section's state. */
  class ReviewPanel {
    /** The film shown, once loaded. */
    var movieId: Option<int>
    var reviews: seq<ReviewService.Review>
    var editingReview: Option<ReviewService.Review>
    /** The form: `userReview.content` and `userReview.rating`. */
    var content: string
    var rating: int

    constructor (movieId: Option<int>, reviews: seq<ReviewService.Review>)
      ensures this.movieId == movieId && this.reviews == reviews
      ensures editingReview == None && content == "" && rating == 0
    {
      this.movieId := movieId;
      this.reviews := reviews;
      editingReview := None;
      content := "";
      rating := 0;
    }

    /** The edit branch of `handleSubmitReview`: the store's `updateReview` on the review
        being edited; on success the page's list takes the saved review in its place and
        the form leaves editing mode. */
    method SaveEdit(store: ReviewService.ReviewStore, user: Option<ReviewService.User>,
                    now: ReviewService.Timestamp) returns (saved: Option<ReviewService.Review>)
      requires movieId.Some? && editingReview.Some?
      modifies this, store
      ensures movieId == old(movieId) && content == old(content) && rating == old(rating)
      ensures saved.Some? ==> reviews == ReplaceById(old(reviews), saved.value) && editingReview == None
      ensures saved.None? ==> reviews == old(reviews) && editingReview == old(editingReview)
      ensures saved.Some? ==>
                saved.value.id == old(editingReview).value.id &&
                saved.value.content == content && saved.value.rating == rating
      ensures saved.Some? ==>
                var idx := ReviewService.FirstIndex(old(store.All()), old(editingReview).value.id);
                idx.Some? && store.stored == Some(old(store.All())[idx.value := saved.value])
      ensures saved.None? ==> store.stored == old(store.stored)
      ensures ReviewService.UniqueIds(old(store.All())) &&
              old(reviews) == ReviewService.ReviewsByMovie(old(store.All()), movieId.value) ==>
                reviews == ReviewService.ReviewsByMovie(store.All(), movieId.value)
    {
      ghost var all := store.All();
      ghost var view := reviews;
      var editId := editingReview.value.id;
      saved := store.UpdateReview(editId, content, rating, user, now);
      if saved.Some? {
        ghost var idx := ReviewService.FirstIndex(all, editId).value;
        if ReviewService.UniqueIds(all) && view == ReviewService.ReviewsByMovie(all, movieId.value) {
          UniqueIdsAt(all, idx);
          EditKeepsViewInStep(all, idx, saved.value, movieId.value);
        }
        reviews := ReplaceById(reviews, saved.value);
        editingReview := None;
      }
    }

    /** `handleSubmitReview`: nothing without a film or unless the content is non-empty
        and the rating positive; else an edit of `editingReview` or a new review, after
        which the form is cleared. */
    method SubmitReview(store: ReviewService.ReviewStore, user: Option<ReviewService.User>,
                        freshId: int, now: ReviewService.Timestamp) returns (saved: Option<ReviewService.Review>)
      modifies this, store
      ensures movieId == old(movieId)
      ensures old(movieId).None? || old(content) == "" || old(rating) <= 0 ==>
                saved.None? && unchanged(this) && unchanged(store)
      ensures old(movieId).Some? && old(content) != "" && old(rating) > 0 ==> content == "" && rating == 0
      ensures old(movieId).Some? && old(content) != "" && old(rating) > 0 && old(editingReview).Some? ==>
                && (saved.Some? ==> reviews == ReplaceById(old(reviews), saved.value) && editingReview == None)
                && (saved.None? ==> reviews == old(reviews) && editingReview == old(editingReview))
                && (saved.Some? ==>
                      saved.value.id == old(editingReview).value.id &&
                      saved.value.content == old(content) && saved.value.rating == old(rating))
                && (saved.Some? ==>
                      var idx := ReviewService.FirstIndex(old(store.All()), old(editingReview).value.id);
                      idx.Some? &&
                      store.stored == Some(old(store.All())[idx.value := saved.value]))
                && (saved.None? ==> store.stored == old(store.stored))
      ensures old(movieId).Some? && old(content) != "" && old(rating) > 0 && old(editingReview).Some? &&
              ReviewService.UniqueIds(old(store.All())) &&
              old(reviews) == ReviewService.ReviewsByMovie(old(store.All()), old(movieId).value) ==>
                reviews == ReviewService.ReviewsByMovie(store.All(), movieId.value)
      ensures old(movieId).Some? && old(content) != "" && old(rating) > 0 && old(editingReview).None? ==>
                && editingReview == None
                && (saved.Some? ==>
                      reviews == [saved.value] + old(reviews) &&
                      saved.value.movieId == old(movieId).value &&
                      store.All() == old(store.All()) + [saved.value])
                && (saved.None? ==> reviews == old(reviews) && store.stored == old(store.stored))
    {
      if movieId.None? {
        return None;
      }
      if content != "" && rating > 0 {
        if editingReview.Some? {
          saved := SaveEdit(store, user, now);
        } else {
          saved := store.CreateReview(movieId.value, content, rating, user, freshId, now);
          if saved.Some? {
            reviews := [saved.value] + reviews;
          }
        }
        content := "";
        rating := 0;
      } else {
        saved := None;
      }
    }

    /** `handleDeleteReview`: after confirmation, a successful delete in the store drops
        every review with that id from the page's list. */
    method DeleteReview(store: ReviewService.ReviewStore, reviewId: int, confirmed: bool,
                        user: Option<ReviewService.User>) returns (deleted: bool)
      modifies this, store
      ensures !confirmed ==> !deleted && unchanged(this) && unchanged(store)
      ensures var idx := ReviewService.FirstIndex(old(store.All()), reviewId);
              deleted <==> confirmed && old(store.stored) != None && idx.Some? && user.Some? &&
                           old(store.All())[idx.value].userId == user.value.id
      ensures deleted ==> store.stored == Some(Seqs.Filter(old(store.All()), ReviewService.NotReviewId(reviewId)))
      ensures movieId.Some? && old(reviews) == ReviewService.ReviewsByMovie(old(store.All()), movieId.value) ==>
                reviews == ReviewService.ReviewsByMovie(store.All(), movieId.value)
      ensures deleted ==> reviews == Seqs.Filter(old(reviews), ReviewService.NotReviewId(reviewId))
      ensures deleted ==> forall r :: r in reviews <==> r in old(reviews) && r.id != reviewId
      ensures !deleted ==> reviews == old(reviews) && store.stored == old(store.stored)
      ensures movieId == old(movieId) && editingReview == old(editingReview)
      ensures content == old(content) && rating == old(rating)
    {
      deleted := false;
      if confirmed {
        ghost var all := store.All();
        deleted := store.DeleteReview(reviewId, user);
        if deleted {
          if movieId.Some? {
            DeleteKeepsViewInStep(all, reviewId, movieId.value);
          }
          reviews := Seqs.Filter(reviews, ReviewService.NotReviewId(reviewId));
        }
      }
    }
  }

  const Anonymous: string := "\U{1EA8}n danh"
  const DefaultUserName: string := "Ng\U{01B0}\U{1EDD}i d\U{00F9}ng"

  /** `formatUserName`: 'Ẩn danh' without a user, then "first last", first, last, the
      e-mail before '@', the `name` property, and 'Người dùng' last. */
  function FormatUserName(user: Option<ReviewService.User>): (r: string)
    ensures user.None? ==> r == Anonymous
    ensures user.Some? && user.value.firstName != "" && user.value.lastName != "" ==>
              r == user.value.firstName + " " + user.value.lastName
    ensures user.Some? && user.value.firstName != "" && user.value.lastName == "" ==>
              r == user.value.firstName
    ensures user.Some? && user.value.firstName == "" && user.value.lastName != "" ==>
              r == user.value.lastName
    ensures user.Some? && user.value.firstName == "" && user.value.lastName == "" &&
            user.value.email.Some? && user.value.email.value != "" ==>
              r == Text.BeforeFirst(user.value.email.value, '@')
    ensures user.Some? && user.value.firstName == "" && user.value.lastName == "" &&
            user.value.email.GetOr("") == "" ==>
              r == (if user.value.name != "" then user.value.name else DefaultUserName)
  {
    match user
    case None => Anonymous
    case Some(u) =>
      if u.firstName != "" && u.lastName != "" then u.firstName + " " + u.lastName
      else if u.firstName != "" then u.firstName
      else if u.lastName != "" then u.lastName
      else if u.email.Some? && u.email.value != "" then Text.BeforeFirst(u.email.value, '@')
      else ReviewService.OrElse(u.name, DefaultUserName)
  }

  /** The displayed name is empty exactly for a user without first and last name whose
      e-mail address starts with '@': the `name` fallback is then never reached. */
  lemma FormatUserNameEmptyIff(u: ReviewService.User)
    ensures FormatUserName(Some(u)) == "" <==>
              u.firstName == "" && u.lastName == "" && u.email.Some? && u.email.value != "" &&
              u.email.value[0] == '@'
  {
    if u.firstName == "" && u.lastName == "" && u.email.Some? && u.email.value != "" {
      var r := Text.BeforeFirst(u.email.value, '@');
      assert r == [] ==> u.email.value[0] == '@';
    }
  }

  /** Without first and last name the page shows the same name the store recorded:
      the part of the e-mail address before '@'. */
  lemma FormatUserNameAgreesWithStore(u: ReviewService.User)
    requires u.firstName == "" && u.lastName == "" && u.email.Some? && u.email.value != ""
    ensures ReviewService.ReviewerName(u) == Some(FormatUserName(Some(u)))
  {
    ReviewService.ReviewerNameFallback(u);
  }

  /** `getUserAvatar`: the placeholder without a user, else the `||` chain. */
  function GetUserAvatar(user: Option<ReviewService.User>): (r: string)
    ensures r != ""
    ensures user.None? ==> r == ReviewService.Placeholder
    ensures user.Some? ==>
              r == ReviewService.FirstPresent(ReviewService.AvatarCandidates(user.value), ReviewService.Placeholder)
    ensures user.Some? ==> r == ReviewService.AvatarFor(user.value)
  {
    match user
    case None => ReviewService.Placeholder
    case Some(u) =>
      ReviewService.AvatarVariantsAgree(u);
      ReviewService.AvatarOr(u)
  }
}
