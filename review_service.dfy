/** The browser-side review store (CineTicket/frontend/src/services/review.service.ts and
    its JavaScript twin frontend/cinema/src/service/reviewService.js, which implement the
    same five operations). The list of reviews that both serialise under the
    'movie_reviews' key is a field of type `Option<seq<Review>>`: `None` while nothing
    has been stored. The signed-in user, the `Date.now()` id and the
    `new Date().toISOString()` timestamp are parameters. */
module ReviewService {
  import opened Wrappers
  import Seqs
  import Text

  /** An ISO-8601 timestamp, handled as an opaque value. */
  type Timestamp = string

  /** The author block stored inside a review. */
  datatype Author = Author(id: int, name: string, avatarUrl: Option<string>)

  datatype Review = Review(
    id: int, movieId: int, userId: int, content: string, rating: int,
    createdAt: Timestamp, updatedAt: Option<Timestamp>, user: Author)

  /** The signed-in user as the auth service returns it. A missing property and an
      empty string are both falsy in JavaScript and are both written ""; only `email`
      keeps the difference (`None` when missing), because a method is called on it. */
  datatype User = User(
    id: int, firstName: string, lastName: string, email: Option<string>, name: string,
    avatarUrl: string, profileImage: string, photoURL: string, imageUrl: string)

  const Placeholder: string := "https://via.placeholder.com/150"

  /** `a || b` on strings. */
  function OrElse(a: string, b: string): string {
    if a != "" then a else b
  }

  /** The reference rule for avatars: the first non-empty candidate, else `default`. */
  function FirstPresent(candidates: seq<string>, default: string): (r: string)
    ensures (forall i :: 0 <= i < |candidates| ==> candidates[i] == "") ==> r == default
    ensures forall k ::
              (0 <= k < |candidates| && candidates[k] != "" &&
               forall i :: 0 <= i < k ==> candidates[i] == "") ==> r == candidates[k]
  {
    if candidates == [] then default
    else if candidates[0] != "" then candidates[0]
    else FirstPresent(candidates[1..], default)
  }

  function AvatarCandidates(u: User): seq<string> {
    [u.avatarUrl, u.profileImage, u.photoURL, u.imageUrl]
  }

  /** The avatar as review.service.ts picks it: an if / else-if chain over the four
      picture properties that starts from the placeholder. */
  function AvatarFor(u: User): string
  {
    var avatarUrl := Placeholder;
    if u.avatarUrl != "" then u.avatarUrl
    else if u.profileImage != "" then u.profileImage
    else if u.photoURL != "" then u.photoURL
    else if u.imageUrl != "" then u.imageUrl
    else avatarUrl
  }

  /** The avatar as reviewService.js picks it: one `||` chain. */
  function AvatarOr(u: User): string
  {
    OrElse(u.avatarUrl, OrElse(u.profileImage, OrElse(u.photoURL, OrElse(u.imageUrl, Placeholder))))
  }

  /** Both variants pick the first present picture, so they store the same avatar,
      and it is never empty. */
  lemma AvatarVariantsAgree(u: User)
    ensures AvatarFor(u) == FirstPresent(AvatarCandidates(u), Placeholder)
    ensures AvatarOr(u) == FirstPresent(AvatarCandidates(u), Placeholder)
    ensures AvatarFor(u) != ""
  {
    var c := AvatarCandidates(u);
    var c1, c2, c3 := c[1..], c[1..][1..], c[1..][1..][1..];
    assert c1 == [u.profileImage, u.photoURL, u.imageUrl];
    assert c2 == [u.photoURL, u.imageUrl];
    assert c3 == [u.imageUrl] && c3[1..] == [];
    assert FirstPresent(c3, Placeholder) == OrElse(u.imageUrl, Placeholder);
    assert FirstPresent(c2, Placeholder) == OrElse(u.photoURL, FirstPresent(c3, Placeholder));
    assert FirstPresent(c1, Placeholder) == OrElse(u.profileImage, FirstPresent(c2, Placeholder));
    assert FirstPresent(c, Placeholder) == OrElse(u.avatarUrl, FirstPresent(c1, Placeholder));
    assert AvatarFor(u) == AvatarOr(u);
  }

  /** The stored display name: the trimmed "first last", or the part of the e-mail
      address before '@' when that is empty. `None` when the fallback calls `split` on a
      missing address: the exception is caught and the operation returns null. */
  function ReviewerName(u: User): Option<string> {
    var fullName := Text.Trim(u.firstName + " " + u.lastName);
    if fullName != "" then Some(fullName)
    else if u.email.None? then None
    else Some(Text.BeforeFirst(u.email.value, '@'))
  }

  /** The e-mail fallback is taken exactly when both name parts are blank. */
  lemma ReviewerNameFallback(u: User)
    ensures Text.AllWhitespace(u.firstName) && Text.AllWhitespace(u.lastName) ==>
              ReviewerName(u) == if u.email.None? then None else Some(Text.BeforeFirst(u.email.value, '@'))
    ensures !(Text.AllWhitespace(u.firstName) && Text.AllWhitespace(u.lastName)) ==>
              ReviewerName(u) == Some(Text.Trim(u.firstName + " " + u.lastName)) &&
              ReviewerName(u).value != ""
  {
    var joined := u.firstName + " " + u.lastName;
    Text.TrimEmptyIff(joined);
    Text.AllWhitespaceConcat(u.firstName, " ");
    Text.AllWhitespaceConcat(u.firstName + " ", u.lastName);
    assert Text.AllWhitespace(" ") by {
      assert Text.IsWhitespace(" "[0]);
    }
  }

  /** The review `createReview` builds. */
  function NewReview(id: int, movieId: int, content: string, rating: int, u: User, name: string,
                     now: Timestamp): (r: Review)
    ensures r.id == id && r.movieId == movieId && r.userId == u.id && r.user.id == u.id
    ensures r.content == content && r.rating == rating && r.createdAt == now && r.updatedAt == None
    ensures r.user.name == name && r.user.avatarUrl == Some(AvatarFor(u))
    ensures r.user.avatarUrl == Some(FirstPresent(AvatarCandidates(u), Placeholder))
  {
    AvatarVariantsAgree(u);
    Review(id, movieId, u.id, content, rating, now, None, Author(u.id, name, Some(AvatarFor(u))))
  }

  /** The entry `updateReview` writes back: new content, rating, update time and author
      name and picture; id, film, author id and creation time are kept. */
  function Edited(r: Review, content: string, rating: int, u: User, name: string,
                  now: Timestamp): (e: Review)
    ensures e.id == r.id && e.movieId == r.movieId && e.userId == r.userId
    ensures e.createdAt == r.createdAt && e.user.id == r.user.id
    ensures e.content == content && e.rating == rating && e.updatedAt == Some(now)
    ensures e.user.name == name && e.user.avatarUrl == Some(AvatarFor(u))
    ensures e.user.avatarUrl == Some(FirstPresent(AvatarCandidates(u), Placeholder))
  {
    AvatarVariantsAgree(u);
    r.(content := content, rating := rating, updatedAt := Some(now),
       user := r.user.(name := name, avatarUrl := Some(AvatarFor(u))))
  }

  /** `review => review.movieId === movieId`. */
  function ForMovie(movieId: int): Review -> bool {
    (r: Review) => r.movieId == movieId
  }

  /** `r => r.id !== reviewId`. */
  function NotReviewId(reviewId: int): Review -> bool {
    (r: Review) => r.id != reviewId
  }

  /** `allReviews.filter(review => review.movieId === movieId)`. */
  function ReviewsByMovie(all: seq<Review>, movieId: int): (r: seq<Review>)
    ensures forall x :: x in r <==> x in all && x.movieId == movieId
    ensures Seqs.IsSubseq(r, all)
  {
    Seqs.FilterIsSubseq(all, ForMovie(movieId));
    Seqs.Filter(all, ForMovie(movieId))
  }

  /** A film's list holds each of its reviews as often as the store does. */
  lemma ReviewsByMovieCounts(all: seq<Review>, movieId: int)
    ensures forall x :: multiset(ReviewsByMovie(all, movieId))[x] ==
              if x.movieId == movieId then multiset(all)[x] else 0
  {
    Seqs.FilterIsSubseq(all, ForMovie(movieId));
  }

  /** Appending a review adds it at the end of its own film's list and leaves every
      other film's list alone. */
  lemma ReviewsByMovieAfterAppend(all: seq<Review>, r: Review, movieId: int)
    ensures ReviewsByMovie(all + [r], movieId) ==
              ReviewsByMovie(all, movieId) + (if r.movieId == movieId then [r] else [])
  {
    Seqs.FilterSnoc(all, r, ForMovie(movieId));
  }

  /** `allReviews.findIndex(r => r.id === reviewId)`, with `None` for -1. */
  function FirstIndex(all: seq<Review>, reviewId: int): (r: Option<nat>)
    ensures r.None? <==> forall j :: 0 <= j < |all| ==> all[j].id != reviewId
    ensures r.Some? ==>
              && r.value < |all| && all[r.value].id == reviewId
              && forall j :: 0 <= j < r.value ==> all[j].id != reviewId
  {
    if all == [] then None
    else if all[0].id == reviewId then Some(0)
    else
      match FirstIndex(all[1..], reviewId)
      case None => None
      case Some(i) => Some(i + 1)
  }

  /** `allReviews.find(r => r.movieId === movieId && r.userId === userId)`, as the
      position of the match it returns. */
  function AuthorIndex(all: seq<Review>, movieId: int, userId: int): (r: Option<nat>)
    ensures r.None? <==> forall j :: 0 <= j < |all| ==> !(all[j].movieId == movieId && all[j].userId == userId)
    ensures r.Some? ==>
              && r.value < |all| && all[r.value].movieId == movieId && all[r.value].userId == userId
              && forall j :: 0 <= j < r.value ==> !(all[j].movieId == movieId && all[j].userId == userId)
  {
    if all == [] then None
    else if all[0].movieId == movieId && all[0].userId == userId then Some(0)
    else
      match AuthorIndex(all[1..], movieId, userId)
      case None => None
      case Some(i) => Some(i + 1)
  }

  /** No two stored reviews share an id, as the `Date.now()` ids make likely. */
  predicate UniqueIds(all: seq<Review>) {
    forall i, j :: 0 <= i < j < |all| ==> all[i].id != all[j].id
  }

  /** Removing by id: no entry with that id is left, every other entry is kept in
      order, as often as it occurred. */
  lemma RemoveByIdKeepsOthers(all: seq<Review>, reviewId: int)
    ensures forall x :: x in Seqs.Filter(all, NotReviewId(reviewId)) <==> x in all && x.id != reviewId
    ensures Seqs.IsSubseq(Seqs.Filter(all, NotReviewId(reviewId)), all)
    ensures forall x: Review :: x.id != reviewId ==>
              multiset(Seqs.Filter(all, NotReviewId(reviewId)))[x] == multiset(all)[x]
  {
    Seqs.FilterIsSubseq(all, NotReviewId(reviewId));
  }

  class ReviewStore {
    /** The 'movie_reviews' entry; `None` while nothing has been stored. */
    var stored: Option<seq<Review>>

    /** `storedReviews ? JSON.parse(storedReviews) : []`. */
    function All(): seq<Review>
      reads this
    {
      stored.GetOr([])
    }

    constructor ()
      ensures stored == None
    {
      stored := None;
    }

    /** `getReviewsByMovie`: the stored reviews of that film in stored order, [] when
        nothing is stored. */
    method GetReviewsByMovie(movieId: int) returns (r: seq<Review>)
      ensures r == ReviewsByMovie(All(), movieId)
      ensures stored == None ==> r == []
    {
      r := ReviewsByMovie(All(), movieId);
    }

    /** `createReview`: null without a user (or when the name cannot be formed);
        otherwise one new review appended. */
    method CreateReview(movieId: int, content: string, rating: int, user: Option<User>,
                        freshId: int, now: Timestamp) returns (r: Option<Review>)
      modifies this
      ensures user.None? || ReviewerName(user.value).None? ==> r == None && stored == old(stored)
      ensures user.Some? && ReviewerName(user.value).Some? ==>
                && r == Some(NewReview(freshId, movieId, content, rating, user.value,
                                       ReviewerName(user.value).value, now))
                && stored == Some(old(All()) + [r.value])
      ensures r.Some? ==> |All()| == |old(All())| + 1 && All()[..|old(All())|] == old(All())
    {
      if user.None? {
        return None;
      }
      var u := user.value;
      var name := ReviewerName(u);
      if name.None? {
        return None;
      }
      var newReview := NewReview(freshId, movieId, content, rating, u, name.value, now);
      var allReviews := All();
      allReviews := allReviews + [newReview];
      stored := Some(allReviews);
      assert allReviews[..|old(All())|] == old(All());
      r := Some(newReview);
    }

    /** `updateReview`: only the author may edit; the first entry with the id is
        rewritten in place, every other entry stays as it was. */
    method UpdateReview(reviewId: int, content: string, rating: int, user: Option<User>,
                        now: Timestamp) returns (r: Option<Review>)
      modifies this
      ensures var idx := FirstIndex(old(All()), reviewId);
              r.None? <==> old(stored) == None || idx.None? || user.None?
                           || old(All())[idx.value].userId != user.value.id
                           || ReviewerName(user.value).None?
      ensures r.None? ==> stored == old(stored)
      ensures r.Some? ==>
                var idx := FirstIndex(old(All()), reviewId).value;
                && r.value == Edited(old(All())[idx], content, rating, user.value,
                                     ReviewerName(user.value).value, now)
                && stored == Some(old(All())[idx := r.value])
      ensures r.Some? ==>
                && |All()| == |old(All())|
                && forall j :: 0 <= j < |All()| && All()[j].id != reviewId ==> All()[j] == old(All())[j]
    {
      if stored.None? {
        return None;
      }
      var allReviews := stored.value;
      var reviewIndex := FirstIndex(allReviews, reviewId);
      if reviewIndex.None? {
        return None;
      }
      var i := reviewIndex.value;
      if user.None? || allReviews[i].userId != user.value.id {
        return None;
      }
      var name := ReviewerName(user.value);
      if name.None? {
        return None;
      }
      var edited := Edited(allReviews[i], content, rating, user.value, name.value, now);
      assert edited.id == reviewId;
      allReviews := allReviews[i := edited];
      stored := Some(allReviews);
      r := Some(edited);
    }

    /** `deleteReview`: the author of the first entry with the id removes every entry
        with that id. */
    method DeleteReview(reviewId: int, user: Option<User>) returns (ok: bool)
      modifies this
      ensures var idx := FirstIndex(old(All()), reviewId);
              ok <==> old(stored) != None && idx.Some? && user.Some?
                      && old(All())[idx.value].userId == user.value.id
      ensures !ok ==> stored == old(stored)
      ensures ok ==> stored == Some(Seqs.Filter(old(All()), NotReviewId(reviewId)))
      ensures ok ==> forall x :: x in All() <==> x in old(All()) && x.id != reviewId
    {
      if stored.None? {
        return false;
      }
      var allReviews := stored.value;
      var reviewToDelete := FirstIndex(allReviews, reviewId);
      if reviewToDelete.None? {
        return false;
      }
      if user.None? || allReviews[reviewToDelete.value].userId != user.value.id {
        return false;
      }
      stored := Some(Seqs.Filter(allReviews, NotReviewId(reviewId)));
      ok := true;
    }

    /** `getUserReviewForMovie`: the first stored review of that film by the user. */
    method GetUserReviewForMovie(movieId: int, user: Option<User>) returns (r: Option<Review>)
      ensures user.None? || stored.None? ==> r == None
      ensures user.Some? && stored.Some? ==>
                var idx := AuthorIndex(All(), movieId, user.value.id);
                (r.None? <==> idx.None?) && (r.Some? ==> r.value == All()[idx.value])
      ensures r.Some? ==> r.value in All() && r.value.movieId == movieId && r.value.userId == user.value.id
    {
      if user.None? || stored.None? {
        return None;
      }
      var allReviews := stored.value;
      var i := AuthorIndex(allReviews, movieId, user.value.id);
      if i.None? {
        return None;
      }
      r := Some(allReviews[i.value]);
    }
  }
}
