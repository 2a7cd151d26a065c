/** The review handlers: a review needs a booking, an update touches only the caller's own
    review, a delete touches any review, and the per-event listing joins reviews with their
    event and reviewer. */
module Reviews {
  import opened Collections
  import opened Schema

  /** The guards of `addReview`, in order: a falsy eventId or rating (400), an unknown event
      (404), no booking of the event by the caller (403). */
  function ReviewGate(events: seq<Event>, bookings: seq<Booking>, userId: int,
                      eventId: Option<int>, rating: Option<int>): (v: Verdict)
    ensures v == Admitted <==>
      Truthy(eventId) && Truthy(rating) && FindEvent(events, eventId.value).Some?
      && HasBooking(bookings, userId, eventId.value)
    ensures v.Refused? ==> v.status in {400, 403, 404}
    ensures v == Refused(400) <==> !Truthy(eventId) || !Truthy(rating)
    ensures v == Refused(404) <==>
      Truthy(eventId) && Truthy(rating) && FindEvent(events, eventId.value).None?
    ensures v == Refused(403) <==>
      Truthy(eventId) && Truthy(rating) && FindEvent(events, eventId.value).Some?
      && !HasBooking(bookings, userId, eventId.value)
  {
    if !Truthy(eventId) || !Truthy(rating) then Refused(400)
    else if FindEvent(events, eventId.value).None? then Refused(404)
    else if !HasBooking(bookings, userId, eventId.value) then Refused(403)
    else Admitted
  }

  /** `addReview`: when the guards pass, inserts one review stamped `now` and answers 201.
      Ratings are not range-checked and a second review of the same event is accepted. */
  method AddReview(db: Db, userId: int, eventId: Option<int>, rating: Option<int>,
                   reviewText: Option<string>, now: int) returns (status: int)
    requires db.Valid()
    modifies db`reviews, db`nextId
    ensures db.Valid()
    ensures var v := ReviewGate(db.events, db.bookings, userId, eventId, rating);
      && (v.Refused? ==> status == v.status && db.reviews == old(db.reviews) && db.nextId == old(db.nextId))
      && (v.Admitted? ==>
            status == 201 && db.nextId == old(db.nextId) + 1
            && db.reviews == old(db.reviews) + [Review(old(db.nextId), userId, eventId.value, rating,
                                                       OrNull(reviewText), now)])
  {
    var v := ReviewGate(db.events, db.bookings, userId, eventId, rating);
    if v.Refused? {
      return v.status;
    }
    db.reviews := db.reviews + [Review(db.nextId, userId, eventId.value, rating, OrNull(reviewText), now)];
    db.nextId := db.nextId + 1;
    status := 201;
  }

  /** A successful booking lets the booker review the event; after a cancellation the same
      request is refused with 403. */
  lemma BookingOpensReview(events: seq<Event>, bookings: seq<Booking>, b: Booking, rating: int)
    requires FindEvent(events, b.eventId).Some? && b.eventId != 0 && rating != 0
    ensures ReviewGate(events, bookings + [b], b.userId, Some(b.eventId), Some(rating)) == Admitted
  {
    assert (bookings + [b])[|bookings|] == b;
  }

  lemma {:induction false} CancellationClosesReview(events: seq<Event>, bookings: seq<Booking>,
                                                   userId: int, eventId: int, rating: int)
    requires FindEvent(events, eventId).Some? && eventId != 0 && rating != 0
    ensures ReviewGate(events, Filter(bookings, (b: Booking) => b.userId != userId || b.eventId != eventId),
                       userId, Some(eventId), Some(rating)) == Refused(403)
  {
    var kept := Filter(bookings, (b: Booking) => b.userId != userId || b.eventId != eventId);
    forall k | 0 <= k < |kept| ensures kept[k].userId != userId || kept[k].eventId != eventId {
      assert kept[k] in kept;
    }
  }

  /** `UPDATE Reviews SET Rating, ReviewText WHERE ReviewID AND UserID`: every row matching
      both is rewritten, every other row is kept. An absent rating is written as NULL. */
  function Revise(reviews: seq<Review>, reviewId: int, userId: int, rating: Option<int>,
                  text: Option<string>): (r: seq<Review>)
    ensures |r| == |reviews|
    ensures forall k :: 0 <= k < |r| ==>
      if reviews[k].id == reviewId && reviews[k].userId == userId
      then r[k] == reviews[k].(rating := rating, text := OrNull(text))
      else r[k] == reviews[k]
  {
    seq(|reviews|, k requires 0 <= k < |reviews| =>
      if reviews[k].id == reviewId && reviews[k].userId == userId
      then reviews[k].(rating := rating, text := OrNull(text))
      else reviews[k])
  }

  /** Some row carries both the review id and the caller as author (rowsAffected > 0). */
  predicate OwnsReview(reviews: seq<Review>, reviewId: int, userId: int) {
    exists k :: 0 <= k < |reviews| && reviews[k].id == reviewId && reviews[k].userId == userId
  }

  /** `updateReview`: answers 404 and changes nothing when the caller has no review with that
      id; otherwise rewrites it and answers 200. */
  method UpdateReview(db: Db, userId: int, reviewId: int, rating: Option<int>,
                      reviewText: Option<string>) returns (status: int)
    requires db.Valid()
    modifies db`reviews
    ensures db.Valid()
    ensures !OwnsReview(old(db.reviews), reviewId, userId) ==> status == 404 && db.reviews == old(db.reviews)
    ensures OwnsReview(old(db.reviews), reviewId, userId) ==>
      status == 200 && db.reviews == Revise(old(db.reviews), reviewId, userId, rating, reviewText)
  {
    var revised := Revise(db.reviews, reviewId, userId, rating, reviewText);
    if !OwnsReview(db.reviews, reviewId, userId) {
      assert revised == db.reviews;
      return 404;
    }
    db.reviews := revised;
    status := 200;
  }

  /** An update never touches another user's review, keeps every id, author and event, and
      leaves the table as it was when the caller owns no such review. */
  lemma UpdateTouchesOnlyOwnReview(reviews: seq<Review>, reviewId: int, userId: int,
                                   rating: Option<int>, text: Option<string>)
    ensures var r := Revise(reviews, reviewId, userId, rating, text);
      && (forall k :: 0 <= k < |r| && r[k] != reviews[k] ==>
            reviews[k].id == reviewId && reviews[k].userId == userId)
      && (forall k :: 0 <= k < |r| ==>
            r[k].id == reviews[k].id && r[k].userId == reviews[k].userId && r[k].eventId == reviews[k].eventId)
      && (!OwnsReview(reviews, reviewId, userId) ==> r == reviews)
  {
  }

  function NotReview(reviewId: int): Review -> bool { (r: Review) => r.id != reviewId }

  /** `deleteReview`: removes the review with that id whoever wrote it; answers 404 when no
      row had the id and 200 otherwise. */
  method DeleteReview(db: Db, reviewId: int) returns (status: int)
    requires db.Valid()
    modifies db`reviews
    ensures db.Valid()
    ensures db.reviews == Filter(old(db.reviews), NotReview(reviewId))
    ensures status == (if exists r :: r in old(db.reviews) && r.id == reviewId then 200 else 404)
  {
    var kept := Filter(db.reviews, NotReview(reviewId));
    FilterCount(db.reviews, NotReview(reviewId));
    if exists r :: r in db.reviews && r.id == reviewId {
      status := 200;
    } else {
      status := 404;
    }
    db.reviews := kept;
  }

  /** After a delete no review carries the id; every other review is kept. */
  lemma DeleteRemovesOnlyThatId(reviews: seq<Review>, reviewId: int)
    ensures forall r :: r in Filter(reviews, NotReview(reviewId)) <==> r in reviews && r.id != reviewId
    ensures |Filter(reviews, NotReview(reviewId))| < |reviews| <==> exists r :: r in reviews && r.id == reviewId
  {
    var kept := Filter(reviews, NotReview(reviewId));
    FilterCount(reviews, NotReview(reviewId));
    if exists r :: r in reviews && r.id == reviewId {
      var r :| r in reviews && r.id == reviewId;
      assert multiset(kept)[r] == 0 && multiset(reviews)[r] > 0;
      assert multiset(kept) <= multiset(reviews);
      assert multiset(kept) != multiset(reviews);
      assert |multiset(kept)| < |multiset(reviews)| by {
        assert multiset(reviews) == multiset(kept) + (multiset(reviews) - multiset(kept));
      }
    } else {
      FilterKeepsAll(reviews, NotReview(reviewId));
    }
  }

  function ReviewTime(r: Review): int { r.createdAt }

  /** The rows of the three-way join for an event: the review is for the event, the event
      exists and the author is a user. */
  function JoinedFor(events: seq<Event>, users: seq<User>, eventId: int): Review -> bool {
    (r: Review) => r.eventId == eventId && FindEvent(events, eventId).Some? && FindUser(users, r.userId).Some?
  }

  /** Pairs each joined review with its author (the `JOIN Users` columns). */
  function WithAuthors(rows: seq<Review>, users: seq<User>): (joined: seq<(Review, User)>)
    requires forall r :: r in rows ==> FindUser(users, r.userId).Some?
    ensures Firsts(joined) == rows
    ensures forall k :: 0 <= k < |joined| ==> FindUser(users, joined[k].0.userId) == Some(joined[k].1)
  {
    seq(|rows|, k requires 0 <= k < |rows| => (rows[k], FindUser(users, rows[k].userId).value))
  }

  /** `getReviewsByEventId`: the event's reviews that join with their event and author, newest
      first, each paired with its author; 404 when there are none, 400 without an id. EventID
      and UserID are the primary keys of the joined tables. */
  function ReviewsForEvent(events: seq<Event>, reviews: seq<Review>, users: seq<User>,
                           eventId: Option<int>): (res: Result<seq<(Review, User)>>)
    requires UniqueEventIds(events) && UniqueUserIds(users)
    ensures eventId.None? ==> res == Err(400)
    ensures eventId.Some? ==>
      var matching := Filter(reviews, JoinedFor(events, users, eventId.value));
      && (res == Err(404) <==> matching == [])
      && (res.Ok? ==>
            && SortedDesc(Firsts(res.value), ReviewTime)
            && multiset(Firsts(res.value)) == multiset(matching)
            && forall k :: 0 <= k < |res.value| ==>
                 res.value[k].0.eventId == eventId.value && FindUser(users, res.value[k].0.userId) == Some(res.value[k].1))
    ensures res.Ok? || res == Err(400) || res == Err(404)
  {
    if eventId.None? then Err(400)
    else
      var p := JoinedFor(events, users, eventId.value);
      var rows := SelectOrdered(reviews, p, ReviewTime);
      JoinedRowsQualify(rows, reviews, events, users, eventId.value);
      if |rows| == 0 then Err(404)
      else
        var joined := WithAuthors(rows, users);
        AuthorsJoined(rows, users, eventId.value);
        Ok(joined)
  }

  /** Every selected row is a review of the event by a known author, and there are as many
      as the join selects. */
  lemma JoinedRowsQualify(rows: seq<Review>, reviews: seq<Review>, events: seq<Event>, users: seq<User>, eventId: int)
    requires rows == SelectOrdered(reviews, JoinedFor(events, users, eventId), ReviewTime)
    ensures |rows| == |Filter(reviews, JoinedFor(events, users, eventId))|
    ensures forall r :: r in rows ==> r.eventId == eventId && FindUser(users, r.userId).Some?
  {
    forall r | r in rows ensures r.eventId == eventId && FindUser(users, r.userId).Some? {
      assert JoinedFor(events, users, eventId)(r);
    }
  }

  /** Pairing rows with their authors keeps each row's event. */
  lemma AuthorsJoined(rows: seq<Review>, users: seq<User>, eventId: int)
    requires forall r :: r in rows ==> r.eventId == eventId && FindUser(users, r.userId).Some?
    ensures var joined := WithAuthors(rows, users);
      forall k :: 0 <= k < |joined| ==>
        joined[k].0.eventId == eventId && FindUser(users, joined[k].0.userId) == Some(joined[k].1)
  {
    var joined := WithAuthors(rows, users);
    forall k | 0 <= k < |joined|
      ensures joined[k].0.eventId == eventId && FindUser(users, joined[k].0.userId) == Some(joined[k].1)
    {
      assert Firsts(joined)[k] == rows[k] && rows[k] in rows;
    }
  }
}
