# CineTicket / ASP_SHOP core in Dafny

This project models the rules that sit inside the pages and controllers of a
cinema-ticketing front end, its catalogue API and a small shop API:

- **Seat selection** (`SeatBooking`). The screening page's selection is a class holding
  the selected seats and the loaded price. Clicking a seat toggles it:
  - booked seats are ignored;
  - a selected seat is removed;
  - an addition is refused when the sorted ids would show a one-seat gap;
  - the selection holds at most eight seats.

  Also modelled: the total price, the booking request built on submit, and the
  summary's in-place sort by row, then seat number.
- **Review store** (`ReviewService`). The browser-side review table
  (`review.service.ts`, and its JavaScript twin `reviewService.js`) is a class whose
  field is the stored list, `None` until anything is stored. It models:
  - create (append);
  - update at the first index with the id, for the author only;
  - delete of every entry with the id, for the author only;
  - the per-film query;
  - the per-user lookup.

  The two variants choose the avatar differently (an if-chain in TypeScript, one
  `||` chain in JavaScript); `AvatarVariantsAgree` proves that both choose the same one.
- **Film detail page** (`MovieDetail`):
  - the screening days on offer;
  - the day filter;
  - the grouping by cinema (a loop over the `reduce`);
  - the similar-films list;
  - the display-name and avatar fallbacks;
  - the review panel, whose handlers call the store and keep the page's list in step.
- **Booking history page** (`BookingHistory`):
  - newest-first order;
  - the seat-label loop of `formatSeats` and its sort;
  - the status colour and the status filter.
- **Catalogue API** (`MoviesController`): now showing, coming soon, top ten by rating,
  genre query ignoring case, and the distinct genres. All are pure queries with the
  clock as a parameter.
- **Product API** (`ProductController`). The `Products` table is a class of tracked
  entities; `Update` assigns the fields of the tracked entity. Modelled: model
  validation, the default image, and NotFound for missing keys. Validation requires
  a name that is not null, empty or white space (`[Required]`) and a price of at
  least 0.01. It also treats the non-nullable `ImageUrl` as implicitly required, so
  an image that binds to null, "" or white space is refused.

`Wrappers`, `Text`, `Seqs` and `Sorting` hold the shared vocabulary:
- `Option`;
- trimming, lower-casing, `split('@')[0]`, `includes`, integer printing and parsing;
- two white-space sets: `trim` strips the WhiteSpace and LineTerminator code points
  of ECMA-262 (sections 12.2 and 12.3); .NET's `char.IsWhiteSpace`, used by
  `[Required]`, counts the Unicode separators, U+0009 to U+000D and U+0085, but not
  U+FEFF;
- order-preserving filter, deduplication and map;
- a stable insertion sort by a comparator, proved sorted and a permutation.

JavaScript's falsy `undefined`, `null` and `""` are all written `""`, except where the
difference changes behaviour (a missing e-mail address, a missing `imageUrl` in a JSON
body). Timestamps and dates are integers (milliseconds and day numbers). Prices are
whole currency units (cents for products); ratings are in tenths.

## Model

| member | source | states |
|---|---|---|
| SeatBooking.HasGap | frontend/src/pages/SeatBookingPage.tsx:56-59 | true exactly when some neighbouring pair of the sorted ids has a second id that is non-zero and exactly 2 above the first |
| SeatBooking.RemoveSelected | frontend/src/pages/SeatBookingPage.tsx:44-48 | filtering a selection with distinct ids by the clicked seat's id removes exactly that one entry, keeps the others in order, and keeps the ids distinct |
| SeatBooking.TotalPriceChargesEachSeat | frontend/src/pages/SeatBookingPage.tsx:129-132 | the total equals one screening price charged per selected seat, is 0 without screening data, and lies between 0 and eight prices for a reachable selection |
| SeatBooking.TotalPrice | frontend/src/pages/SeatBookingPage.tsx:129-132 | defined as 0 without screening data, else the seat count times the price; `TotalPriceChargesEachSeat` proves it is one price per seat |
| SeatBooking.RowThenNumberTotalPreorder | frontend/src/pages/SeatBookingPage.tsx:357 | the summary comparator (row by code unit, then seat number) is total and transitive |
| SeatBooking.SummaryOrder | frontend/src/pages/SeatBookingPage.tsx:357 | the sorted summary holds the same seats, ordered by row and then by seat number |
| SeatBooking.DistinctIdsPermutation | frontend/src/pages/SeatBookingPage.tsx:357 | reordering a selection keeps its ids distinct, so the in-place sort keeps the page's invariant |
| SeatBooking.GapRuleIgnoresRows | frontend/src/pages/SeatBookingPage.tsx:51-59 | with one seat selected, a seat of another row whose non-zero id is two higher is refused: the gap rule compares ids across rows and never uses the row |
| SeatBooking.RemovalCanLeaveGap | frontend/src/pages/SeatBookingPage.tsx:44-68 | three seats with consecutive ids (the last non-zero) show no gap; removing the middle one leaves a pair that shows one, a selection the add rule would have refused |
| SeatBooking.SeatBookingPage.HandleSeatClick | frontend/src/pages/SeatBookingPage.tsx:41-73 | a booked seat leaves the selection unchanged; a selected seat is filtered out, with no gap or size check; otherwise a gap refuses the seat, then a full selection refuses it, else the seat is appended. After an addition the sorted selection has no gap; every state keeps at most eight distinct, unbooked seats |
| SeatBooking.SeatBookingPage.HandleBookingSubmit | frontend/src/pages/SeatBookingPage.tsx:97-115 | without a login the outcome is the login redirect; an empty selection sends no request; otherwise the request carries the screening and the selected ids in selection order |
| SeatBooking.SeatBookingPage.CalculateTotalPrice | frontend/src/pages/SeatBookingPage.tsx:129-132 | the result is 0 without screening data, else one price per selected seat |
| SeatBooking.SeatBookingPage.SortSummary | frontend/src/pages/SeatBookingPage.tsx:357 | the state array is replaced by its row-then-number sort; the price and the page invariant are kept |
| ReviewService.FirstPresent | CineTicket/frontend/src/services/review.service.ts:51-64 | the first non-empty candidate, or the default when all are empty |
| ReviewService.AvatarVariantsAgree | CineTicket/frontend/src/services/review.service.ts:51-64 | the if-chain and the `||` chain of reviewService.js:22 both pick the first present of avatarUrl, profileImage, photoURL and imageUrl, else the placeholder; the avatar is never empty |
| ReviewService.AvatarFor | CineTicket/frontend/src/services/review.service.ts:51-64 | defined as the if / else-if chain from the placeholder over avatarUrl, profileImage, photoURL and imageUrl; `AvatarVariantsAgree` proves it is the first present picture |
| ReviewService.AvatarOr | frontend/cinema/src/service/reviewService.js:22 | defined as the `||` chain over the same four properties and the placeholder; `AvatarVariantsAgree` proves it equal to `AvatarFor` |
| ReviewService.ReviewerName | CineTicket/frontend/src/services/review.service.ts:49-75 | defined as the trimmed "first last", else the e-mail before '@', else none for a missing address; `ReviewerNameFallback` proves when each case applies |
| ReviewService.ReviewerNameFallback | CineTicket/frontend/src/services/review.service.ts:49-75 | the name is the trimmed "first last" when either part has a non-blank character; otherwise it is the e-mail address before '@', or nothing (the thrown error) when the address is missing |
| ReviewService.NewReview | CineTicket/frontend/src/services/review.service.ts:66-77 | the new review carries the fresh id, the film, the user as author, the content, the rating, the creation time and no update time, under the given name; its avatar is the first present of avatarUrl, profileImage, photoURL and imageUrl, else the placeholder |
| ReviewService.Edited | CineTicket/frontend/src/services/review.service.ts:131-141 | an edit keeps id, film, author id, creation time and author-block id, and sets content, rating, update time and name; its avatar is the first present picture of the editor, else the placeholder |
| ReviewService.ReviewsByMovie | CineTicket/frontend/src/services/review.service.ts:28-30 | exactly the reviews of that film, as a subsequence of the stored order |
| ReviewService.ReviewsByMovieCounts | CineTicket/frontend/src/services/review.service.ts:28-30 | each review of the film occurs in its list as often as in the store, and no other review occurs |
| ReviewService.ReviewsByMovieAfterAppend | CineTicket/frontend/src/services/review.service.ts:80-83 | appending a review extends its film's list at the end and leaves every other film's list alone |
| ReviewService.FirstIndex | CineTicket/frontend/src/services/review.service.ts:104-106 | the position of the first review with the id, or none exactly when no review has it |
| ReviewService.AuthorIndex | CineTicket/frontend/src/services/review.service.ts:185-192 | the position of the first review of that film by that user, or none exactly when there is none |
| ReviewService.RemoveByIdKeepsOthers | CineTicket/frontend/src/services/review.service.ts:172-175 | removing by id leaves no entry with the id and keeps every other entry, in order and as often as it occurred |
| ReviewService.ReviewStore.GetReviewsByMovie | frontend/cinema/src/service/reviewService.js:5-14 | the stored reviews of the film in stored order, and [] when nothing is stored; the store is not touched |
| ReviewService.ReviewStore.CreateReview | CineTicket/frontend/src/services/review.service.ts:38-90 | without a user, or when the name cannot be formed, the result is null and the store is unchanged; otherwise exactly one new review is appended and returned, the earlier entries are unchanged and the length grows by one |
| ReviewService.ReviewStore.UpdateReview | CineTicket/frontend/src/services/review.service.ts:93-149 | null, with the store unchanged, exactly when nothing is stored, the id is absent, there is no user, the user is not the author, or the name cannot be formed; otherwise the first entry with the id is replaced by its edit, the length is kept and every entry with another id is unchanged |
| ReviewService.ReviewStore.DeleteReview | frontend/cinema/src/service/reviewService.js:85-105 | true exactly when something is stored, the id is present and the user wrote the first entry with it; then every entry with the id is removed and the rest are kept in order; otherwise the store is unchanged |
| ReviewService.ReviewStore.GetUserReviewForMovie | frontend/cinema/src/service/reviewService.js:107-121 | null without a user or store; otherwise the first review of that film by the user, or null when there is none |
| MovieDetail.AvailableDatesSpec | CineTicket/frontend/src/pages/MovieDetailPage.tsx:229-233 | the dates on offer are strictly increasing, so free of repeats, and are exactly the days on which some screening starts |
| MovieDetail.AvailableDates | CineTicket/frontend/src/pages/MovieDetailPage.tsx:229-233 | defined as the days of the screenings, first occurrences kept, sorted ascending; `AvailableDatesSpec` proves what that yields |
| MovieDetail.FilteredScreenings | CineTicket/frontend/src/pages/MovieDetailPage.tsx:236-240 | all screenings when no date is chosen, else exactly those on that day, in order, each as often as in the input |
| MovieDetail.Push | CineTicket/frontend/src/pages/MovieDetailPage.tsx:245-252 | defined as: create the group of the screening's cinema when missing, then append the screening; `PushKeepsGroups` proves what one step keeps |
| MovieDetail.PushKeepsGroups | CineTicket/frontend/src/pages/MovieDetailPage.tsx:245-252 | one reducer step keeps the accumulator exactly the grouping of the screenings seen so far |
| MovieDetail.GroupByCinema | CineTicket/frontend/src/pages/MovieDetailPage.tsx:243-253 | one group per cinema id that occurs; each holds, in order, exactly the screenings at that cinema, under the cinema of its first screening |
| MovieDetail.SimilarMovies | CineTicket/frontend/src/pages/MovieDetailPage.tsx:156-167 | no list without the current film's genres; otherwise the first four (or all, when fewer) of the other films whose genres or genre contains it, in catalogue order: a prefix of the matches of length min(4, matches) |
| MovieDetail.ReplaceById | CineTicket/frontend/src/pages/MovieDetailPage.tsx:293-296 | the list keeps its length, and each review with the saved id is replaced by the saved review |
| MovieDetail.EditKeepsViewInStep | CineTicket/frontend/src/pages/MovieDetailPage.tsx:293-296 | when the id occurs once, replacing by id in the film's list gives the film's list of the store after its in-place update |
| MovieDetail.DeleteKeepsViewInStep | CineTicket/frontend/src/pages/MovieDetailPage.tsx:343 | removing by id from the film's list gives the film's list of the store after its delete |
| MovieDetail.CreateReordersView | CineTicket/frontend/src/pages/MovieDetailPage.tsx:308 | after a create the page shows the same reviews as the store's view of the film, with the new one first where the store has it last |
| MovieDetail.ReviewPanel.SubmitReview | CineTicket/frontend/src/pages/MovieDetailPage.tsx:275-318 | nothing changes without a film, empty content or a rating of 0 or less. Otherwise the form is cleared. An edit behaves as `SaveEdit`. A create prepends the review the store appended; a failed create keeps the list and the store. With unique ids, a list that was the store's view of the film still is after an edit |
| MovieDetail.ReviewPanel.SaveEdit | CineTicket/frontend/src/pages/MovieDetailPage.tsx:284-298 | on success the store's entry at the first index with the edited id becomes the saved review, the list replaces by id and editing stops; on failure list, editing state and store are unchanged; with unique ids the list stays the store's view of the film |
| MovieDetail.ReviewPanel.DeleteReview | CineTicket/frontend/src/pages/MovieDetailPage.tsx:339-347 | deleted exactly when confirmed, something is stored, the id is present and the user wrote its first entry; then the store holds the filtered list and exactly the entries with that id leave the page's list, which stays the store's view of the film; otherwise nothing changes; the form and the editing state are kept |
| MovieDetail.FormatUserName | CineTicket/frontend/src/pages/MovieDetailPage.tsx:393-407 | 'Ẩn danh' without a user; "first last" when both are present, first or last alone when only one is; failing both, the e-mail before '@', then the `name` property, then 'Người dùng' |
| MovieDetail.FormatUserNameEmptyIff | CineTicket/frontend/src/pages/MovieDetailPage.tsx:395-404 | the shown name is empty exactly for a user with no first or last name whose e-mail starts with '@' |
| MovieDetail.FormatUserNameAgreesWithStore | CineTicket/frontend/src/pages/MovieDetailPage.tsx:402-404 | without first and last name the page shows the name the store records, the e-mail before '@' |
| MovieDetail.GetUserAvatar | CineTicket/frontend/src/pages/MovieDetailPage.tsx:410-418 | never empty: the placeholder without a user, else the first present picture, the same one the review store chooses |
| BookingHistory.NewestFirstSpec | frontend/src/pages/BookingHistoryPage.tsx:65-66 | the history holds every booking once and its creation times never increase |
| BookingHistory.NewestFirst | frontend/src/pages/BookingHistoryPage.tsx:65-66 | defined as the stable sort by creation time, newest first; `NewestFirstSpec` proves what that yields |
| BookingHistory.ExtractLabel | frontend/src/pages/BookingHistoryPage.tsx:90-110 | the first shape that fits gives the label: seat.row with seat.seatNumber, then row with number, then seat.row with seat.number; none exactly when no shape fits; a label ends in a digit |
| BookingHistory.Labels | frontend/src/pages/BookingHistoryPage.tsx:90-110 | at most one label per booking seat, each ending in a digit |
| BookingHistory.FormatSeats | frontend/src/pages/BookingHistoryPage.tsx:82-131 | the loop collects the labels in seat order, and the result is the 'N/A' or sorted-and-joined text the specification function gives |
| BookingHistory.SeatsText | frontend/src/pages/BookingHistoryPage.tsx:82-131 | defined as 'N/A' without booking seats or labels, else the sorted labels joined by ", "; `SeatsTextNotAvailableIff` and `SeatsTextIsPermutation` prove what it shows |
| BookingHistory.SeatsTextNotAvailableIff | frontend/src/pages/BookingHistoryPage.tsx:83-116 | 'N/A' exactly when there are no booking seats or no label could be extracted |
| BookingHistory.SeatsTextIsPermutation | frontend/src/pages/BookingHistoryPage.tsx:119-130 | the sorted labels are the extracted ones, each as often as extracted |
| BookingHistory.LabelLeConsistent | frontend/src/pages/BookingHistoryPage.tsx:120-129 | on labels with a one-character row the comparator is total and transitive |
| BookingHistory.SortedByRowThenNumber | frontend/src/pages/BookingHistoryPage.tsx:119-130 | labels with one-character rows come out by first character, then by seat number |
| BookingHistory.StatusColor | frontend/src/pages/BookingHistoryPage.tsx:134-145 | green, yellow or red exactly for lower-cased 'confirmed', 'pending' or 'cancelled', and grey exactly for anything else |
| BookingHistory.StatusColorIgnoresCase | frontend/src/pages/BookingHistoryPage.tsx:135 | the colour does not depend on letter case |
| BookingHistory.FilterBookings | frontend/src/pages/BookingHistoryPage.tsx:148-151 | 'all' keeps every booking; any other filter keeps exactly the bookings whose lower-cased status equals it, in order, each as often as in the input |
| BookingHistory.FilterAgreesWithColor | frontend/src/pages/BookingHistoryPage.tsx:134-151 | every booking under the 'confirmed' tab is shown green |
| MoviesController.GetMovie | CineTicket/backend/CineTicket.API/Controllers/MoviesController.cs:32-42 | NotFound exactly when no film has the id; otherwise a film of the table with that id |
| MoviesController.NowShowing | CineTicket/backend/CineTicket.API/Controllers/MoviesController.cs:46-52 | exactly the films released by now whose end date is set and not before now, in table order, each as often as in the table |
| MoviesController.ComingSoon | CineTicket/backend/CineTicket.API/Controllers/MoviesController.cs:56-62 | exactly the films released after now, in table order, each as often as in the table |
| MoviesController.NowShowingComingSoonDisjoint | CineTicket/backend/CineTicket.API/Controllers/MoviesController.cs:50-60 | no film is in both lists, and a film with no end date is never showing |
| MoviesController.Popular | CineTicket/backend/CineTicket.API/Controllers/MoviesController.cs:66-72 | defined as the first ten of the stable sort by rating, highest first; `PopularOrdered` and `PopularLeavesOutNoHigher` prove what it yields |
| MoviesController.PopularOrdered | CineTicket/backend/CineTicket.API/Controllers/MoviesController.cs:66-72 | ten films, or all of them when there are fewer, with ratings never increasing |
| MoviesController.PopularLeavesOutNoHigher | CineTicket/backend/CineTicket.API/Controllers/MoviesController.cs:68-71 | the list is drawn from the table and no film left out rates higher than a film listed |
| MoviesController.ByGenre | CineTicket/backend/CineTicket.API/Controllers/MoviesController.cs:74-86 | NotFound exactly when no genre matches ignoring case; otherwise a non-empty list, in table order, of exactly the matching films, each as often as in the table |
| MoviesController.ByGenreIgnoresCase | CineTicket/backend/CineTicket.API/Controllers/MoviesController.cs:77 | the response does not depend on the case of the requested genre |
| MoviesController.Genres | CineTicket/backend/CineTicket.API/Controllers/MoviesController.cs:89-98 | each genre once; exactly the non-empty genres some film has |
| ProductController.ValidBody | Models/Product.cs:12-18 | defined as: a name that is not all .NET white space, a price of at least 1 cent, and a bound image that is present and not all white space |
| ProductController.ValidatedImageIsUsed | Controllers/ProductController.cs:41-63 | for a validated body neither image fallback is taken: `Create` stores the bound image, `Update` always overwrites the stored one, and the stored image is not blank |
| ProductController.CreatedImage | Controllers/ProductController.cs:41-44 | a non-empty image is kept; a null or empty one becomes the default; never empty |
| ProductController.Updated | Controllers/ProductController.cs:57-63 | name and price are copied and the key is kept; the image is replaced only by a non-empty one, and a null or empty one keeps the stored image |
| ProductController.OmittedImageResetsToDefault | Controllers/ProductController.cs:60-63 | a body without `imageUrl` overwrites the stored image with the default |
| ProductController.IndexOf | Controllers/ProductController.cs:54 | the position of the first row with the key, or none exactly when no row has it |
| ProductController.ProductTable.GetById | Controllers/ProductController.cs:31-36 | NotFound exactly when no row has the key; otherwise a row of the table with that key; the table is not touched |
| ProductController.ProductTable.Create | Controllers/ProductController.cs:39-49 | an invalid body (blank name, price under 0.01, or a null or blank image) is refused; a taken explicit key is refused; otherwise one fresh entity, with the default image where none was sent, is appended and returned, the earlier ones are unchanged, keys stay unique, and the stored name and image are not blank |
| ProductController.ProductTable.Update | Controllers/ProductController.cs:52-67 | an invalid body is refused and a missing key gives NotFound, both changing nothing; otherwise only the matching row becomes its update, the entity list is unchanged, keys stay unique, and the stored name and image are not blank |
| ProductController.ProductTable.Delete | Controllers/ProductController.cs:70-78 | NotFound with no change for a missing key; otherwise exactly that entity is removed, the others keep their order, and no row with the key is left |
| ProductController.RemoveKeepsUnique | Controllers/ProductController.cs:75 | removing one row keeps the keys unique and leaves no row with its key |
| ProductController.CreatedIsFound | Controllers/ProductController.cs:46-48 | after a create, finding by the returned key gives the new row |

## Left out

- Rendering, routing, alerts, trailers and loading screens are not modelled. They produce no state the rules use.
- Clocks, ids and I/O are parameters:
  - `Date.now()` ids and the `toISOString()` timestamp are passed in;
  - `DateTime.Now` is the parameter `now`;
  - the database key generation is `freshId`;
  - the signed-in user is passed in.
- `localStorage` and JSON are not modelled. The stored list is a field, so a malformed stored value and the resulting `catch` paths are not modelled.
- The asynchronous fetches, `isMounted` guards and React batching of state updates are not modelled.
- `DayOf` is the UTC day number (`startTime / 86400000`), standing in for `toISOString().split('T')[0]`. Ordering those strings equals ordering the day numbers only for years 0000-9999.
- Row labels are compared by code unit, not by `localeCompare`'s locale collation; letter case is folded for ASCII only (`Text.LowerChar`).
- BookingHistory.SortedByRowThenNumber: the ordering is proved only for labels with a one-character row. For longer rows the page's comparator (first character, then `parseInt` of the rest) is modelled as written, but no order is claimed.
- `Text.ParseInt` reads optional '-' and decimal digits only. `parseInt`'s acceptance of a trailing non-digit suffix is not modelled; such a label's number counts as `NaN`, which is a tie.
- A booking seat whose number is `null` would print "null" in the page. The model writes a missing number as absent (the `!== undefined` tests) and does not model `null` numbers.
- The key order of `Object.values(screeningsByCinema)`: the grouping is a map from cinema id.
- Database behaviour:
  - the catalogue's collation, and `Distinct` possibly merging genres that differ only in case;
  - the order of rows with equal rating, modelled as the table order of a stable sort.
- `GetAll` in ProductController and an unfiltered movie list are not modelled; both return the table as it is.
- Prices are whole units. Decimal fractions of product prices are whole cents.
- `handleEditReview`, `handleCancelEdit` and the `checkUserReview` effect of MovieDetailPage.tsx are not modelled. They copy a review into the form or clear it, with no rule beyond the assignment.
- The TypeScript and JavaScript review stores are one model. Their only difference is how the avatar is chosen, and `ReviewService.AvatarVariantsAgree` proves the two choices equal.
- ProductController.ProductTable.Create: when the body carries a key that is already taken, Entity Framework throws. The model returns `DuplicateKey` and changes nothing.
- The model binder is not modelled. `ProductController.BoundImage` states what it is
  assumed to do with `imageUrl`: an absent property keeps the initialiser's
  "/images/default.png" (Models/Product.cs:18), `null` binds to null, a string to itself.
- The project file is not part of this model. Nullable reference types are assumed
  enabled, which makes the non-nullable `ImageUrl` implicitly `[Required]`. That
  follows the `string?` properties of Models/User.cs and the `required` member of
  Models/Product.cs.
- The Unicode space separators (`Text.IsSpaceSeparator`) are those of a fixed Unicode
  version; later additions to category Zs are not tracked.
- MovieDetail.ReviewPanel.SubmitReview, MovieDetail.ReviewPanel.SaveEdit: the promise
  that the page's list stays the store's view after an edit assumes the stored ids are
  unique (`ReviewService.UniqueIds`); `Date.now()` ids make that likely but do not
  guarantee it.
- ProductController.ProductTable.Update: the `[ApiController]` model validation that precedes the action is modelled as `BadRequest`. Other binding failures (a non-numeric price, a non-object body) are not.
