/** Global search over events, reviews and users by substring, and the search-history log
    that feeds the recommendation's location signal. */
module Search {
  import opened Collections
  import opened Text
  import opened Schema

  /** `Title LIKE '%q%' OR Description LIKE '%q%' OR Location LIKE '%q%'`. */
  predicate EventMatches(e: Event, q: string) {
    Contains(e.title, q) || Contains(e.description, q) || Contains(e.location, q)
  }

  /** `ReviewText LIKE '%q%' OR CAST(Rating AS NVARCHAR) LIKE '%q%'`; a NULL column matches
      nothing. */
  predicate ReviewMatches(r: Review, q: string) {
    (r.text.Some? && Contains(r.text.value, q)) || (r.rating.Some? && Contains(IntToDecimal(r.rating.value), q))
  }

  /** `FullName LIKE '%q%' OR Email LIKE '%q%'`; a NULL name matches nothing. */
  predicate UserMatches(u: User, q: string) {
    (u.fullName.Some? && Contains(u.fullName.value, q)) || Contains(u.email, q)
  }

  function EventsMatching(q: string): Event -> bool { (e: Event) => EventMatches(e, q) }
  function ReviewsMatching(q: string): Review -> bool { (r: Review) => ReviewMatches(r, q) }
  function UsersMatching(q: string): User -> bool { (u: User) => UserMatches(u, q) }

  /** A matched review with its LEFT JOIN columns: the author's FullName and the event's
      Title, NULL when the row or the column is missing. */
  datatype ReviewHit = ReviewHit(review: Review, reviewer: Option<string>, eventTitle: Option<string>)

  function ReviewerName(users: seq<User>, userId: int): Option<string> {
    var u := FindUser(users, userId);
    if u.Some? then u.value.fullName else None
  }

  function EventTitle(events: seq<Event>, eventId: int): Option<string> {
    var e := FindEvent(events, eventId);
    if e.Some? then Some(e.value.title) else None
  }

  /** The three answer lists of `globalSearch`. */
  datatype SearchResults = SearchResults(events: seq<Event>, reviews: seq<ReviewHit>, users: seq<User>)

  /** `globalSearch`: 400 for a falsy `q`; otherwise the matching events (loaded by id),
      the matching reviews with their joined columns, and the matching users. */
  method GlobalSearch(events: seq<Event>, reviews: seq<Review>, users: seq<User>, q: Option<string>)
    returns (status: int, results: Option<SearchResults>)
    requires UniqueEventIds(events) && UniqueUserIds(users)
    ensures !Filled(q) <==> status == 400 && results.None?
    ensures Filled(q) ==> status == 200 && results.Some?
    ensures Filled(q) ==>
      && results.value.events == Filter(events, EventsMatching(q.value))
      && |results.value.reviews| == |Filter(reviews, ReviewsMatching(q.value))|
      && (forall k :: 0 <= k < |results.value.reviews| ==>
            var hit := results.value.reviews[k];
            && hit.review == Filter(reviews, ReviewsMatching(q.value))[k]
            && hit.reviewer == ReviewerName(users, hit.review.userId)
            && hit.eventTitle == EventTitle(events, hit.review.eventId))
      && results.value.users == Filter(users, UsersMatching(q.value))
  {
    if !Filled(q) {
      return 400, None;
    }
    var matched := Filter(events, EventsMatching(q.value));
    var ids := IdsOf(matched);
    var views := Hydrate(ids, EventIdOf, events);
    forall x | x in ids ensures Loads(events, EventIdOf)(x) {
      var k :| 0 <= k < |ids| && ids[k] == x;
      assert matched[k] in events;
      FindEventUnique(events, matched[k]);
      assert FindEvent(events, EventIdOf(x)).Some?;
    }
    FilterKeepsAll(ids, Loads(events, EventIdOf));
    var found := Seconds(views);
    assert found == matched by {
      forall k | 0 <= k < |found| ensures found[k] == matched[k] {
        assert matched[k] in events;
        FindEventUnique(events, matched[k]);
      }
    }
    var hits := Filter(reviews, ReviewsMatching(q.value));
    var joined := seq(|hits|, k requires 0 <= k < |hits| =>
      ReviewHit(hits[k], ReviewerName(users, hits[k].userId), EventTitle(events, hits[k].eventId)));
    results := Some(SearchResults(found, joined, Filter(users, UsersMatching(q.value))));
    status := 200;
  }

  /** Every listed event, review and user matches `q`, and every matching row is listed. */
  lemma SearchListsExactlyTheMatches(events: seq<Event>, reviews: seq<Review>, users: seq<User>, q: string)
    ensures forall e :: e in Filter(events, EventsMatching(q)) <==> e in events && EventMatches(e, q)
    ensures forall r :: r in Filter(reviews, ReviewsMatching(q)) <==> r in reviews && ReviewMatches(r, q)
    ensures forall u :: u in Filter(users, UsersMatching(q)) <==> u in users && UserMatches(u, q)
  {
  }

  /** A review is found by its rating: searching for the decimal text of the rating finds
      every review carrying that rating. */
  lemma {:induction false} RatingIsSearchable(r: Review)
    requires r.rating.Some?
    ensures ReviewMatches(r, IntToDecimal(r.rating.value))
  {
    var s := IntToDecimal(r.rating.value);
    assert s[0..|s|] == s;
    assert OccursAt(s, s, 0);
  }

  /** `addSearchQuery`: a falsy query answers 400 and logs nothing; otherwise one entry of
      type 'Event' stamped `now` is appended and the answer is 200. Earlier entries are never
      edited or removed. */
  method AddSearchQuery(db: Db, userId: int, query: Option<string>, now: int) returns (status: int)
    requires db.Valid()
    modifies db`searchHistory
    ensures db.Valid()
    ensures !Filled(query) ==> status == 400 && db.searchHistory == old(db.searchHistory)
    ensures Filled(query) ==>
      status == 200 && db.searchHistory == old(db.searchHistory) + [SearchEntry(userId, query.value, "Event", now)]
    ensures old(db.searchHistory) <= db.searchHistory
  {
    if !Filled(query) {
      return 400;
    }
    db.searchHistory := db.searchHistory + [SearchEntry(userId, query.value, "Event", now)];
    status := 200;
  }
}
