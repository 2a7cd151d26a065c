# Eventure marketplace handlers, modelled in Dafny

Eventure is an Express/SQL Server marketplace for events. Companies and individuals
publish events. Users book and pay for them, review them, search, and get recommendations.
Companies run ads.

This project models the decision logic of the request handlers over the tables:

- **Tables:** one `Schema.Db` object holds every table as a sequence of rows, plus one
  identity counter.
- **Handlers:** a handler either answers with an error status and leaves the tables as they
  were, or performs its inserts, updates and deletes. Its contract states which of the two
  happens, and what the tables hold afterwards.
- **Pure queries:** a read-only query with no loop is a pure function over table snapshots.
- **Loops over rows:** a listing that loads each row's event in a loop is a method with a
  loop (`Schema.Hydrate`).

Modules, one per handler file:

| module | handlers |
|---|---|
| `Bookings` | `bookEvent`, `cancelBooking`, `verifyBooking`, `getUserBookings` |
| `Payments` | `createPayment`, `getUserPayments` |
| `Reviews` | `addReview`, `updateReview`, `deleteReview`, `getReviewsByEventId` |
| `Search` | `globalSearch`, `addSearchQuery` |
| `Recommendations` | `addRecommendation`, `getRecommendationsForUser`, `getBehavioralRecommendations` |
| `EventEdits` | the statements that the event handlers of both creator types issue |
| `CompanyEvents` | the company event handlers, run in a transaction |
| `IndividualEvents` | the individual event handlers, run without a transaction |
| `EventListing` | `getAllEvents`, `createMajorCategory` |
| `Users` | `registerUser`, `loginUser`, `updateUserProfile`, `changePassword` |
| `Auth` | the `authenticateToken` and `authorizeRole` middlewares |
| `Ads` | `createAd`, `getActiveAds`, `getAllAds` |

`Collections`, `Text` and `Schema` hold the shared pieces:

- **`Collections`:** filters, orderings and the `Result` answer type.
- **`Text`:** substring containment, `split`, the character classes and the decimal text of an integer.
- **`Schema`:** the row types and lookups.

Conventions used throughout:

- **Request fields:**
  - `Option<int>`/`Option<string>`: `None` stands for an absent or null field. `Truthy` and `Filled` give JavaScript truthiness, so 0 and `""` are falsy.
  - `Option<Option<int>>`: a field tested with `!== undefined`, where `Some(None)` is JSON null.
  - Dates: an `Option<int>` instant, `None` in every falsy form.
- **Units:** money is in integer cents, coordinates in integer micro-degrees, instants in integer ticks.
- **Parameters for the outside world:**
  - The clock is a `now` parameter.
  - A bcrypt hash is a parameter, and bcrypt's comparison is a `compare` function parameter.
  - JWT verification is a `verify` function parameter.
- **Server-side failures:** in the event handlers (`CreateCompanyEvent`, `UpdateCompanyEvent`, `CreateEvent`, `UpdateEvent`, `DeleteOwnedEvent`), `fault` is the index of the first statement SQL Server rejects, if any. Every other write is modelled as succeeding; "## Left out" says so.

The code decides these points as follows, and the model does the same:

- **Capacity:** the booking capacity check counts booking rows (`COUNT(*)`). There is no ticket quantity.
- **Recommendation filter:**
  - The category group and the location group of the behavioural recommendation are joined with AND.
  - The recent searches are not deduplicated.
  - The candidate list has no ORDER BY, so any 10 distinct candidates may be returned.
- **Company update:** it reads the category array from the body key `category`. The company create reads `categories`.
- **Individual variant:** it runs its statements without a transaction. It skips an UPDATE that would set no column, where the company variant fails on it with 500.

## Model

| member | source | states |
|---|---|---|
| Schema.OrNull | controllers/reviewController.js:48 | `x || null` for the review text and the ad targets: NULL exactly when the value is absent, null or empty, and the value itself otherwise |
| Schema.FindEvent | controllers/bookingController.js:19-28 | the lookup by EventID finds a row carrying the id, and finds none exactly when no row has it |
| Schema.Hydrate | controllers/bookingController.js:110-119 | the loop that loads each row's event keeps exactly the rows whose event loads, in order, each paired with the event loaded for it |
| Schema.ListWithEvents | controllers/bookingController.js:101-121 | a listing holds each selected row whose event loads, as often as in the table, newest first, each paired with its own event |
| Bookings.Admission | controllers/bookingController.js:10-70 | the guard order of `bookEvent`: a falsy eventId 400, an unknown event 404, an existing (user, event) booking 409, a capped event whose booking count reaches MaxAttendees 400, no Completed payment for the pair 402; it admits exactly when all pass |
| Bookings.BookEvent | controllers/bookingController.js:5-85 | a refusal answers the guard's status and leaves Bookings unchanged; an admission appends exactly one booking for the pair with a fresh id and returns that id with 200; one booking per pair is kept |
| Bookings.AdmittedKeepsOnePerPair | controllers/bookingController.js:31-41 | inserting a booking for a pair that has none keeps every (user, event) pair unique |
| Bookings.AdmittedKeepsCapacity | controllers/bookingController.js:44-55 | after an admitted insert the event holds at most MaxAttendees bookings, and every other event's count is unchanged |
| Bookings.SecondAttemptConflicts | controllers/bookingController.js:31-41 | booking the same event a second time is refused with 409 |
| Bookings.PaymentUnblocks | controllers/bookingController.js:58-70 | a Completed payment row for the pair turns a 402 into an admission |
| Bookings.OtherPaymentsDoNotUnblock | controllers/bookingController.js:58-70 | a Pending or Failed payment row changes no verdict |
| Bookings.CancelBooking | controllers/bookingController.js:153-167 | deletes exactly the caller's rows for the event, answers 200 even when none existed, and keeps pair uniqueness |
| Bookings.CancelRemovesOnlyThePair | controllers/bookingController.js:159-167 | after a cancel the pair has no booking, every other booking is kept, and no event's count grows |
| Bookings.VerifyBooking | controllers/bookingController.js:204-222 | `booked` is true exactly when a (user, event) row exists |
| Bookings.UserBookings | controllers/bookingController.js:96-121 | only the caller's bookings, newest BookingDate first, each with the event it loads; bookings whose event does not load are dropped; every other booking appears as often as in the table |
| Payments.CreatePayment | controllers/paymentController.js:3-30 | a falsy eventId, amount or paymentMethod is 400 with nothing written; otherwise one Completed payment is appended and the answer is 201 |
| Payments.UserPayments | controllers/paymentController.js:32-51 | exactly the caller's payments, as often as in the table, newest TransactionDate first |
| Payments.RecordedPaymentListed | controllers/paymentController.js:14-23 | each recorded payment adds one more row to the caller's history, even for a pair already paid |
| Reviews.ReviewGate | controllers/reviewController.js:9-40 | the guard order of `addReview`, each status exactly under its condition: a falsy eventId or rating 400; otherwise an unknown event 404; otherwise no booking of the event by the caller 403; otherwise admitted |
| Reviews.AddReview | controllers/reviewController.js:4-53 | a refusal writes nothing; an accepted review is one appended row and 201, with no rating-range or duplicate check |
| Reviews.BookingOpensReview | controllers/reviewController.js:28-40 | a successful booking lets the booker review the event |
| Reviews.CancellationClosesReview | controllers/reviewController.js:28-40 | after cancelling the booking, the same review request is refused with 403 |
| Reviews.Revise | controllers/reviewController.js:69-78 | the UPDATE rewrites rating and text of exactly the rows matching both review id and author, and keeps every other row |
| Reviews.UpdateReview | controllers/reviewController.js:61-84 | 404 and no change when the caller owns no review with that id; otherwise the revision and 200 |
| Reviews.UpdateTouchesOnlyOwnReview | controllers/reviewController.js:69-82 | an update never changes another user's review and keeps every id, author and event |
| Reviews.DeleteReview | controllers/reviewController.js:92-107 | deletes the rows with the review id whoever wrote them; 404 when none had it, 200 otherwise |
| Reviews.DeleteRemovesOnlyThatId | controllers/reviewController.js:98-105 | after a delete no review has the id, and every other review is kept |
| Reviews.WithAuthors | controllers/reviewController.js:123-128 | each joined review is paired with its author's row |
| Reviews.ReviewsForEvent | controllers/reviewController.js:114-136 | 400 without an id, 404 when no review joins; otherwise the event's joined reviews, newest first, with their authors |
| Search.GlobalSearch | controllers/searchController.js:4-64 | 400 for a falsy `q`; otherwise the matching events loaded by id, the matching reviews with reviewer name and event title, and the matching users |
| Search.SearchListsExactlyTheMatches | controllers/searchController.js:16-55 | every listed event, review and user contains `q` in a searched column, and every such row is listed |
| Search.RatingIsSearchable | controllers/searchController.js:42-43 | searching for the decimal text of a rating finds the reviews carrying it |
| Search.AddSearchQuery | controllers/searchController.js:66-90 | a falsy query is 400 and logs nothing; otherwise exactly one 'Event' entry is appended and the history is never edited |
| Recommendations.AddRecommendation | controllers/recommendationController.js:5-29 | a falsy eventId is 400; a pair already recommended is 409 through the unique key; otherwise one row and 201 |
| Recommendations.RecommendationsForUser | controllers/recommendationController.js:39-62 | only the caller's recommendations, newest first, each with its event; recommendations of events that do not load are skipped |
| Recommendations.BookedEventIds | controllers/recommendationController.js:77-87 | one event id per booking row of the user, in table order, so the `COUNT(*)` of a category counts every booking |
| Recommendations.ReviewedEventIds | controllers/recommendationController.js:89-99 | one event id per review row of the user, in table order, so the `COUNT(*)` of a category counts every review |
| Recommendations.ActivityNamesIn | controllers/recommendationController.js:77-99 | a category name is counted exactly when it names a category of an existing event the user booked or reviewed |
| Recommendations.CategorySignalBound | controllers/recommendationController.js:77-111 | the category signal is the union of two TOP 3 answers: at most six names, each from the user's activity |
| Recommendations.RecentSearches | controllers/recommendationController.js:101-107 | min(3, n) of the user's n 'Event' searches, newest first, drawn from the history: the leading rows of those searches ordered by `SearchedAt` descending |
| Recommendations.RecentSearchesAreNewest | controllers/recommendationController.js:101-107 | no search that TOP 3 leaves out is newer than a kept one |
| Recommendations.Queries | controllers/recommendationController.js:112 | the location signal is the queries of the recent searches, in order, duplicates kept |
| Recommendations.NewestSearchLeads | controllers/recommendationController.js:101-112 | a search logged after all earlier ones becomes the first location |
| Recommendations.CandidateIds | controllers/recommendationController.js:122-151 | distinct ids of upcoming events that join a category row and pass the category group AND the location group |
| Recommendations.BehavioralRecommendations | controllers/recommendationController.js:72-164 | 404 when both signals are empty; otherwise at most 10 distinct candidate events, each loaded and passing both groups |
| Recommendations.LoadFirstTen | controllers/recommendationController.js:157-162 | loading the first ten distinct candidate ids drops none of them and yields distinct events, each qualifying |
| Recommendations.PicksLoad | controllers/recommendationController.js:159-162 | each id naming a qualifying event loads exactly that event, so the loop keeps every id in order |
| Recommendations.NoHistoryNoSignal | controllers/recommendationController.js:114-119 | a user with no bookings, reviews or searches gets 404 |
| Recommendations.LocationGroupIsConjoined | controllers/recommendationController.js:139-151 | an event whose location contains no recent search is never recommended, however well its categories match |
| EventEdits.StoredLimit | controllers/companyController.js:54 | a falsy maxAttendees (absent, null or 0) is stored as NULL, meaning no limit |
| EventEdits.NewEvent | controllers/companyController.js:45-57 | the inserted row carries the request fields, the caller as owner, the fresh id and the creation instant |
| EventEdits.NoColumnsExactly | controllers/companyController.js:173-186 | the UPDATE sets no column exactly when no text or date field is truthy and neither price nor maxAttendees is supplied |
| EventEdits.UpdateOverwritesOnlySuppliedColumns | controllers/companyController.js:173-206 | the UPDATE overwrites text and date columns only when truthy and price and maxAttendees only when supplied; id, owner and CreatedAt are never touched |
| EventEdits.NoColumnsNoChange | controllers/individualController.js:120-134 | an update with no supplied column leaves the row as it was |
| EventEdits.SetColumnsKeepsKeys | controllers/companyController.js:184-186 | the UPDATE keeps event ids unique and below the identity counter |
| EventEdits.UpsertPlacesPoint | controllers/companyController.js:223-247 | the coordinate upsert leaves the event's map rows all holding the new point, adding one row only when the event had none, and keeps other events' rows |
| EventEdits.ApplyAllAppend | controllers/individualController.js:45-58 | running two statement lists one after the other is running their concatenation |
| EventEdits.StatementsRun | controllers/individualController.js:26-58 | the statements that run are a prefix of the list, and all of them run exactly when no statement is rejected |
| EventEdits.Execute | controllers/individualController.js:26-58 | statements issued one at a time leave exactly the prefix before the rejected one applied; ok exactly when all ran |
| EventEdits.ExecuteInTransaction | controllers/companyController.js:41-90 | in a transaction either every statement is applied (commit) or the tables are exactly as before (rollback) |
| EventEdits.CategoryInsertsApplied | controllers/companyController.js:63-70 | one EventCategories row per given category id, in order |
| EventEdits.CreatePrefixApplied | controllers/individualController.js:26-58 | the tables after any prefix of the create's statements: the event row, then a prefix of its category rows, then the map row when both coordinates are truthy |
| EventEdits.RowEditsApplied | controllers/companyController.js:208-247 | the category replacement and coordinate upsert leave the rows `Edited` describes |
| EventEdits.UpdatePlanApplied | controllers/companyController.js:173-247 | the whole update yields the edited event row, the replaced category rows and the upserted point |
| EventEdits.UpdatePrefixEvents | controllers/individualController.js:120-165 | after any prefix of the update, the event rows are either as before or fully updated |
| EventEdits.CategoriesReplacedWholesale | controllers/companyController.js:208-221 | after a replacement the event's category rows are exactly the new list, and other events' rows are untouched |
| EventEdits.DeleteOwnedEvent | controllers/companyController.js:268-301 | 403 and no change when the event is absent or another user's; otherwise exactly that event's row is removed with 200, or 500 with nothing removed when the DELETE is rejected |
| EventEdits.DeleteEvent | controllers/companyController.js:288-291 | the DELETE removes the event's row unless the server rejects it, touches no other table and keeps the keys valid |
| EventEdits.DeleteRemovesOneRow | controllers/individualController.js:176-199 | with unique ids, the delete removes exactly one row and keeps every other event |
| EventEdits.OwnEvents | controllers/individualController.js:69-84 | the caller's events and no other, each as often as in the table, ordered by the given key |
| EventEdits.LoadedRowsAreTheRows | controllers/companyController.js:113-117 | with unique ids, loading each listed event by its id yields the listed events themselves, none dropped |
| CompanyEvents.CompanyPrice | controllers/companyController.js:50 | a falsy price is stored as 0 |
| CompanyEvents.CreateCompanyEvent | controllers/companyController.js:5-98 | 400 with nothing written for missing fields; otherwise either all rows (event, one category row per id, map row when both coordinates are truthy) and 201 with the id, or none and 500 |
| CompanyEvents.GetCompanyEvents | controllers/companyController.js:101-127 | the company's events and no other, in ascending EventID |
| CompanyEvents.UpdateCompanyEvent | controllers/companyController.js:130-265 | 403 with no change for an absent or foreign event; 500 with no change for a body that sets no column; otherwise the full edit and 200, or no change and 500 |
| IndividualEvents.IndividualPrice | controllers/individualController.js:13 | the price defaults to 0 only when absent; null stays NULL |
| IndividualEvents.CreateEvent | controllers/individualController.js:5-65 | 400 with nothing written for missing fields; otherwise the statements up to the rejected one stay applied, 201 with the id only when all ran, 500 otherwise |
| IndividualEvents.InterruptedCreateKeepsEvent | controllers/individualController.js:45-63 | a create interrupted after the event row answers 500 yet leaves the event and the category rows already written |
| IndividualEvents.GetMyEvents | controllers/individualController.js:69-89 | the caller's events and no other, newest CreatedAt first |
| IndividualEvents.UpdateEvent | controllers/individualController.js:92-173 | 403 with no change for an absent or foreign event; otherwise the statements up to the rejected one stay applied, 200 and the full edit when all ran, 500 otherwise |
| IndividualEvents.EmptyUpdateSucceeds | controllers/individualController.js:120-134 | an update that supplies nothing issues no statement and succeeds |
| EventListing.Ordered | controllers/eventController.js:36-99 | a permutation of the matching events (the same multiset as the filtered table), in ascending StartDate |
| EventListing.Slice | controllers/eventController.js:99-101 | OFFSET/FETCH keeps at most `limit` rows, starting after `offset` |
| EventListing.CeilDivIsCeiling | controllers/eventController.js:146 | the page count is the least number of pages of `limit` rows that hold every match |
| EventListing.GetAllEvents | controllers/eventController.js:7-158 | 500 when the offset is negative or the limit below 1; otherwise the window at the offset of a StartDate-ordered permutation of the matches, the total count, the page count and the page fields |
| EventListing.PageAt | controllers/eventController.js:99-149 | the page is the OFFSET/FETCH window of a permutation of the matches in ascending StartDate, with the count of all matches and their page count |
| EventListing.ShownRowsQualify | controllers/eventController.js:99 | every row of a page matches the filters and the page is in ascending StartDate |
| EventListing.EveryMatchIsOnItsPage | controllers/eventController.js:20 | for the model's fixed order, match `i` is row `i % limit` of page `i / limit + 1`, which is within the page count |
| EventListing.EveryMatchIsListed | controllers/eventController.js:20 | no match is lost: every matching event is listed as often as the table holds it and appears on some page within the page count |
| EventListing.SelectedIsRow | controllers/eventController.js:36-99 | a selected event is a row of the ordered selection, as often as in the table |
| EventListing.FalsyFiltersIgnored | controllers/eventController.js:36-97 | an empty category array and zero price bounds filter nothing |
| EventListing.NullPriceFailsPriceBound | controllers/eventController.js:63-79 | with a truthy price bound, an event with a NULL price is never listed |
| EventListing.FindMajorCategory | controllers/eventController.js:533-537 | the lookup by name finds a row with that name exactly when one exists |
| EventListing.CreateMajorCategory | controllers/eventController.js:524-569 | a falsy name 401 and an existing name 300, both without writing; otherwise exactly one row with a fresh id, and that id with 200 |
| EventListing.FirstOfNameIsNew | controllers/eventController.js:553-557 | the lookup after the insert finds the inserted row |
| Users.ValidEmailIsPattern | controllers/userController.js:20-23 | the single-pass email check accepts exactly the strings that `^[^\s@]+@[^\s@]+\.[^\s@]+$` matches |
| Users.PasswordRules | controllers/userController.js:30-36 | with the settings of `config/authConfig.js` (special character required, minimum length 8), the special-character rule is checked first and then the length; a password passes exactly when it has a character outside `[A-Za-z0-9]` and at least 8 UTF-16 code units, as `password.length` counts |
| Users.AstralCharactersCountTwice | controllers/userController.js:34 | six characters, three of them above U+FFFF, pass the length rule as nine code units |
| Text.Utf16Length | controllers/userController.js:34 | JavaScript's `length`: at least one and at most two code units per character, and one per character exactly when none is above U+FFFF |
| Users.RegistrationCheck | controllers/userController.js:16-46 | the check order of registration, each answer tied by an iff to its own condition once the earlier checks pass: missing fields, email pattern, user type in {Admin, Company, Individual} (each 400), then the password rules' own 400, then an email already in use (409); it passes exactly when all hold |
| Users.ValidationPrecedesLookup | controllers/userController.js:16-36 | a 400 of registration does not depend on the Users table |
| Users.RegisterUser | controllers/userController.js:11-74 | a refusal writes nothing; an accepted registration appends one row with the fields, the hash and the picture, returns the fresh id with 201, and keeps emails unique |
| Users.FindByEmail | controllers/userController.js:87-95 | the lookup by email finds a row exactly when the email is in use |
| Users.Login | controllers/userController.js:77-101 | a missing email or password is 400; an unknown email and a wrong password are both 401; otherwise the first user row with that email (`recordset[0]`), whose hash accepts the password |
| Users.LoginFailuresLookAlike | controllers/userController.js:91-101 | an unknown email and a wrong password give the same answer |
| Users.FindByEmailSnoc | controllers/userController.js:40-46 | appending a row with an unused email leaves other lookups alone and finds the new row |
| Users.RegisteredUserLogsIn | controllers/userController.js:52-101 | a user just registered logs in with the registered password |
| Users.UpdateUser | controllers/userController.js:179-183 | the UPDATE by UserID edits every row with the id and keeps every other row and the order |
| Users.UpdateKeepsKeys | controllers/userController.js:179-183 | an edit that keeps UserID keeps ids unique and below the identity counter |
| Users.UpdateKeepsLookup | controllers/userController.js:230-233 | an edit that keeps emails leaves the lookup by email finding the same row, edited |
| Users.UpdateUserProfile | controllers/userController.js:168-185 | the caller's row gets the request's name and picture, and the answer is always 200 |
| Users.UpdateUserRow | controllers/userController.js:175-183 | an UPDATE of the caller's row that leaves UserID alone rewrites only that row and keeps the keys valid |
| Users.ProfileOverwrite | controllers/userController.js:172-183 | without an upload the stored picture becomes NULL; ids, emails, hashes and types are kept and who can log in is unchanged |
| Users.PasswordChangeCheck | controllers/userController.js:198-224 | the check order of a password change: missing passwords 400, password rules on the new one (length in UTF-16 code units) 400, unknown user 404, wrong current password 401 |
| Users.SamePasswordRules | controllers/userController.js:202-208 | a new password is refused for the same reason as it would be at registration |
| Users.ChangePassword | controllers/userController.js:193-240 | a refusal writes nothing; otherwise the caller's row gets the new hash and the answer is 200 |
| Users.NewPasswordLogsIn | controllers/userController.js:226-235 | after a change the new password logs in and the old one gets 401 |
| Auth.BearerToken | middlewares/auth.js:7 | the token is non-empty and contains no space; a missing or empty header has none |
| Auth.TokenIsSecondWord | middlewares/auth.js:7 | the token is the second space-separated word whatever the first is, and later words are ignored |
| Auth.OneWordHasNoToken | middlewares/auth.js:7-14 | a header of one word carries no token |
| Auth.Authentication | middlewares/auth.js:5-24 | no token is 401, a token that does not verify is 403, otherwise the token's claims |
| Auth.AuthenticateToken | middlewares/auth.js:16-19 | on success `req.user` holds the claims and the request goes on; otherwise it is answered and `req.user` is untouched |
| Auth.AuthorizeRole | middlewares/auth.js:27-41 | no user is 401; the request goes on exactly when the user type is among the allowed roles; otherwise 403 |
| Auth.MoreRolesAdmitMore | middlewares/auth.js:33-39 | widening the role list never turns away a request it admitted |
| Auth.AuthorizeAfterAuthenticate | middlewares/auth.js:18-33 | after a successful authentication the role gate never answers 401 |
| Ads.CreateAd | controllers/adController.js:4-27 | a falsy content, date or cost (so cost 0) is 400 with nothing written; otherwise one ad for the company and 201 |
| Ads.GetActiveAds | controllers/adController.js:35-50 | exactly the ads with StartDate ≤ now ≤ EndDate, as often as in the table, latest start first |
| Ads.GetAllAds | controllers/adController.js:58-67 | every ad whatever its window, latest start first |
| Ads.ActiveIsAllWithinWindow | controllers/adController.js:40-66 | the active ads are the full ad list restricted to the window |
| Ads.CreatedAdRunsInItsWindow | controllers/adController.js:46 | a new ad whose window holds `now` is among the active ads at `now` |
| Ads.WindowEndsIncluded | controllers/adController.js:46 | `BETWEEN` includes both ends: a new ad is shown on the first and on the last instant of its window |

## Left out

- bcrypt hashing and comparison, JWT signing and verification, and the random refresh token: these are cryptographic calls. They appear as parameters (`passwordHash`, `compare`, `verify`).
- The RefreshTokens upsert of `loginUser`: that table's rows come from a random token and a clock date. Its Users-side decision is modelled in `Users.Login`.
- `getUserProfile`, `changeProfilePicture` and the image handlers: single-statement reads or writes of uploaded file paths, with no decision logic beyond an upload check.
- File uploads: the stored picture path is a parameter.
- The joined display columns of the listings are not modelled: company name, review count, average rating, coordinates, images and category names. The average is a float.
- SQL `LIKE` wildcards inside the search text, and case-insensitive collation: the model matches with plain, case-sensitive substring containment and exact equality.
- Concurrency: every handler runs alone. The check-then-insert of `bookEvent` and `addSearchQuery`'s global `userId` assignment are therefore not modelled.
- `parseInt` and `new Date` on malformed input (NaN pages, invalid dates): numbers and dates arrive already parsed.
- EventListing.CreateMajorCategory: the 400 branch for an INSERT that affects no row is not modelled, because a successful INSERT always affects one row.
- Identity values that a rolled-back insert consumes, and foreign-key cascades on delete: the identity counter moves only when a row stays, and a deleted event's category and map rows are kept.
- `getAllBookings`, `getBookedUserForEvent`, `updateEventCategories`, `deleteMajorCategory`, `getRandomImages`, `getPopularEvents`, and the admin and feedback handlers: they are not part of this model.
- Recommendations.BehavioralRecommendations: the `TOP 3` category choices among equal counts are any valid choice (`IsTopK`), and the first ten candidates are taken in the model's fixed order where SQL Server may return any ten.
- RecentSearches: SQL Server may break a `SearchedAt` tie between the third and fourth newest searches either way; the model fixes one tie order (the stable insertion order of its sort), so it describes one of the allowed answers, not all of them.
- EveryMatchIsOnItsPage: `ORDER BY e.StartDate ASC` has no unique tie-breaker, so SQL Server may order events with equal StartDate differently from one page request to the next. The model fixes one order for all pages, and "each match on exactly one page" holds only for that order.
- Server-side failures outside the event handlers: BookEvent, CancelBooking, CreatePayment, AddReview, UpdateReview, DeleteReview, AddSearchQuery, AddRecommendation, RegisterUser, ChangePassword, UpdateUserProfile, CreateAd and CreateMajorCategory assume that their statements succeed, so the 500 of their `catch` blocks is not modelled.
- Column widths: ids are `sql.Int` (32-bit) and money is `Decimal(10,2)` in the source, while the model uses unbounded integers. A value out of range (such as an eventId of 2147483648) fails parameter validation there and answers 500; the model answers as if the value were in range (for `bookEvent`, 404 for an unknown event).
- GetAllEvents: the page query LEFT JOINs MapsIntegration while the count query does not, so an event with two map rows would appear twice on a page. The model lists each event once, which is faithful when every event has at most one map row; the modelled create and update handlers keep that (the upsert inserts only when the event has none), but `Db.Valid` does not state it.
- Search.GlobalSearch: none of the three queries has an ORDER BY, so SQL Server may return the rows in any order; the model lists each in table order, which is one of the permitted answers, and requires unique event and user ids (the primary keys the joins use).
- Users.RegistrationCheck: the duplicate-email lookup compares emails exactly, where the database collation may ignore case.
