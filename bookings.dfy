/** The booking handlers: admission of a booking through an ordered chain of guards,
    cancellation, the "have I booked" query and the caller's booking listing. */
module Bookings {
  import opened Collections
  import opened Schema

  /** The event is capped (MaxAttendees is not NULL) and its bookings reach the cap. */
  predicate Full(bookings: seq<Booking>, e: Event) {
    e.maxAttendees.Some? && CountFor(bookings, e.id) >= e.maxAttendees.value
  }

  /** The guards of `bookEvent`, in the order the handler runs them: a falsy eventId (400),
      an unknown event (404), an existing booking for the pair (409), a full event (400),
      no Completed payment for the pair (402). */
  function Admission(events: seq<Event>, bookings: seq<Booking>, payments: seq<Payment>,
                     userId: int, eventId: Option<int>): (a: Verdict)
    ensures !Truthy(eventId) ==> a == Refused(400)
    ensures Truthy(eventId) ==>
      var found := FindEvent(events, eventId.value);
      && (a == Refused(404) <==> found.None?)
      && (a == Refused(409) <==> found.Some? && HasBooking(bookings, userId, eventId.value))
      && (a == Refused(400) <==> found.Some? && !HasBooking(bookings, userId, eventId.value)
                                 && Full(bookings, found.value))
      && (a == Refused(402) <==> found.Some? && !HasBooking(bookings, userId, eventId.value)
                                 && !Full(bookings, found.value)
                                 && !HasCompletedPayment(payments, userId, eventId.value))
    ensures a == Admitted <==>
      && Truthy(eventId)
      && FindEvent(events, eventId.value).Some?
      && !HasBooking(bookings, userId, eventId.value)
      && !Full(bookings, FindEvent(events, eventId.value).value)
      && HasCompletedPayment(payments, userId, eventId.value)
  {
    if !Truthy(eventId) then Refused(400)
    else
      var found := FindEvent(events, eventId.value);
      if found.None? then Refused(404)
      else if HasBooking(bookings, userId, eventId.value) then Refused(409)
      else if Full(bookings, found.value) then Refused(400)
      else if !HasCompletedPayment(payments, userId, eventId.value) then Refused(402)
      else Admitted
  }

  /** `bookEvent`: runs the guards; when they pass, inserts one booking for the pair stamped
      `now` and answers 200 with its new id. A refusal changes nothing. */
  method BookEvent(db: Db, userId: int, eventId: Option<int>, now: int)
    returns (status: int, bookingId: Option<int>)
    requires db.Valid()
    modifies db`bookings, db`nextId
    ensures db.Valid()
    ensures var a := Admission(old(db.events), old(db.bookings), old(db.payments), userId, eventId);
      && (a.Refused? ==> status == a.status && bookingId.None?
                         && db.bookings == old(db.bookings) && db.nextId == old(db.nextId))
      && (a.Admitted? ==> status == 200 && bookingId == Some(old(db.nextId))
                          && db.bookings == old(db.bookings) + [Booking(old(db.nextId), userId, eventId.value, now)]
                          && db.nextId == old(db.nextId) + 1)
  {
    var a := Admission(db.events, db.bookings, db.payments, userId, eventId);
    if a.Refused? {
      return a.status, None;
    }
    var b := Booking(db.nextId, userId, eventId.value, now);
    AdmittedKeepsOnePerPair(db.bookings, userId, eventId.value, b);
    db.bookings := db.bookings + [b];
    bookingId := Some(db.nextId);
    db.nextId := db.nextId + 1;
    status := 200;
  }

  /** Appending one booking adds one to its event's count and leaves the others alone. */
  lemma {:induction false} CountSnoc(bookings: seq<Booking>, b: Booking, eventId: int)
    ensures CountFor(bookings + [b], eventId) == CountFor(bookings, eventId) + (if b.eventId == eventId then 1 else 0)
  {
    if bookings == [] {
      assert ([] + [b])[1..] == [];
    } else {
      assert (bookings + [b])[1..] == bookings[1..] + [b];
      CountSnoc(bookings[1..], b, eventId);
    }
  }

  /** A booking for a pair that has none keeps the pair unique. */
  lemma AdmittedKeepsOnePerPair(bookings: seq<Booking>, userId: int, eventId: int, b: Booking)
    requires OneBookingPerPair(bookings) && !HasBooking(bookings, userId, eventId)
    requires b.userId == userId && b.eventId == eventId
    ensures OneBookingPerPair(bookings + [b])
  {
    var t := bookings + [b];
    forall i, j | 0 <= i < j < |t| ensures DifferentPair(t[i], t[j]) {
      if j == |bookings| {
        assert t[i] == bookings[i];
      } else {
        assert t[i] == bookings[i] && t[j] == bookings[j];
      }
    }
  }

  /** Admission never pushes a capped event over its cap: after the insert the event holds at
      most MaxAttendees bookings, and every other event's count is as before. */
  lemma {:induction false} AdmittedKeepsCapacity(events: seq<Event>, bookings: seq<Booking>,
                                                payments: seq<Payment>, userId: int, eventId: int, id: int, now: int)
    requires Admission(events, bookings, payments, userId, Some(eventId)) == Admitted
    ensures var e := FindEvent(events, eventId).value;
      e.maxAttendees.Some? ==> CountFor(bookings + [Booking(id, userId, eventId, now)], eventId) <= e.maxAttendees.value
    ensures forall other :: other != eventId ==>
      CountFor(bookings + [Booking(id, userId, eventId, now)], other) == CountFor(bookings, other)
  {
    CountSnoc(bookings, Booking(id, userId, eventId, now), eventId);
    forall other | other != eventId
      ensures CountFor(bookings + [Booking(id, userId, eventId, now)], other) == CountFor(bookings, other)
    {
      CountSnoc(bookings, Booking(id, userId, eventId, now), other);
    }
  }

  /** Booking the same event again is refused with 409, whatever else holds. */
  lemma SecondAttemptConflicts(events: seq<Event>, bookings: seq<Booking>, payments: seq<Payment>,
                               userId: int, eventId: int, id: int, now: int)
    requires Admission(events, bookings, payments, userId, Some(eventId)) == Admitted
    ensures Admission(events, bookings + [Booking(id, userId, eventId, now)], payments, userId, Some(eventId))
      == Refused(409)
  {
    var t := bookings + [Booking(id, userId, eventId, now)];
    assert t[|bookings|].userId == userId && t[|bookings|].eventId == eventId;
  }

  /** The payment guard asks for a Completed row: recording one (as `createPayment` does)
      turns a 402 into an admission; a Pending or Failed row changes no verdict. */
  lemma PaymentUnblocks(events: seq<Event>, bookings: seq<Booking>, payments: seq<Payment>,
                        userId: int, eventId: int, p: Payment)
    requires Admission(events, bookings, payments, userId, Some(eventId)) == Refused(402)
    requires p.userId == userId && p.eventId == eventId && p.status == Completed
    ensures Admission(events, bookings, payments + [p], userId, Some(eventId)) == Admitted
  {
    assert (payments + [p])[|payments|] == p;
  }

  lemma OtherPaymentsDoNotUnblock(events: seq<Event>, bookings: seq<Booking>, payments: seq<Payment>,
                                  userId: int, eventId: Option<int>, p: Payment)
    requires p.status != Completed
    ensures Admission(events, bookings, payments + [p], userId, eventId)
      == Admission(events, bookings, payments, userId, eventId)
  {
    if Truthy(eventId) {
      var ps := payments + [p];
      if HasCompletedPayment(ps, userId, eventId.value) {
        var k :| 0 <= k < |ps| && ps[k].userId == userId && ps[k].eventId == eventId.value
          && ps[k].status == Completed;
        assert k < |payments| && ps[k] == payments[k];
      }
      assert HasCompletedPayment(payments, userId, eventId.value) ==> HasCompletedPayment(ps, userId, eventId.value) by {
        if HasCompletedPayment(payments, userId, eventId.value) {
          var k :| 0 <= k < |payments| && payments[k].userId == userId && payments[k].eventId == eventId.value
            && payments[k].status == Completed;
          assert ps[k] == payments[k];
        }
      }
    }
  }

  /** The rows `DELETE FROM Bookings WHERE UserID = u AND EventID = e` keeps. */
  function NotPair(userId: int, eventId: int): Booking -> bool {
    (b: Booking) => b.userId != userId || b.eventId != eventId
  }

  /** `cancelBooking`: deletes the caller's booking of the event, if any, and answers 200
      in every case. */
  method CancelBooking(db: Db, userId: int, eventId: int) returns (status: int)
    requires db.Valid()
    modifies db`bookings
    ensures db.Valid()
    ensures status == 200
    ensures db.bookings == Filter(old(db.bookings), NotPair(userId, eventId))
  {
    FilterKeepsPairwise(db.bookings, NotPair(userId, eventId), DifferentPair);
    db.bookings := Filter(db.bookings, NotPair(userId, eventId));
    status := 200;
  }

  /** After a cancellation the pair has no booking, no other booking is lost, and no
      event's count grows. */
  lemma {:induction false} CancelRemovesOnlyThePair(bookings: seq<Booking>, userId: int, eventId: int)
    ensures !HasBooking(Filter(bookings, NotPair(userId, eventId)), userId, eventId)
    ensures forall b :: b in bookings && (b.userId != userId || b.eventId != eventId) ==>
      b in Filter(bookings, NotPair(userId, eventId))
    ensures forall e :: CountFor(Filter(bookings, NotPair(userId, eventId)), e) <= CountFor(bookings, e)
  {
    var kept := Filter(bookings, NotPair(userId, eventId));
    forall k | 0 <= k < |kept| ensures kept[k].userId != userId || kept[k].eventId != eventId {
      assert kept[k] in kept;
    }
    if bookings != [] {
      CancelRemovesOnlyThePair(bookings[1..], userId, eventId);
      var head := if NotPair(userId, eventId)(bookings[0]) then [bookings[0]] else [];
      var tail := Filter(bookings[1..], NotPair(userId, eventId));
      assert kept == head + tail;
      forall e ensures CountFor(kept, e) <= CountFor(bookings, e) {
        assert CountFor(tail, e) <= CountFor(bookings[1..], e);
        if head != [] {
          assert kept[0] == bookings[0] && kept[1..] == tail;
          assert CountFor(kept, e) == (if bookings[0].eventId == e then 1 else 0) + CountFor(tail, e);
        } else {
          assert kept == tail;
        }
      }
    }
  }

  /** `verifyBooking`: the SELECT for the pair, read as "booked" when it returns a row. */
  function VerifyBooking(bookings: seq<Booking>, userId: int, eventId: int): (booked: bool)
    ensures booked <==> HasBooking(bookings, userId, eventId)
  {
    if bookings == [] then false
    else if bookings[0].userId == userId && bookings[0].eventId == eventId then true
    else
      var rest := VerifyBooking(bookings[1..], userId, eventId);
      assert rest <==> HasBooking(bookings, userId, eventId) by {
        if rest {
          var k :| 0 <= k < |bookings[1..]| && bookings[1..][k].userId == userId && bookings[1..][k].eventId == eventId;
          assert bookings[k + 1] == bookings[1..][k];
        }
        if HasBooking(bookings, userId, eventId) {
          var k :| 0 <= k < |bookings| && bookings[k].userId == userId && bookings[k].eventId == eventId;
          assert k != 0;
          assert bookings[1..][k - 1] == bookings[k];
        }
      }
      rest
  }

  function BookingDate(b: Booking): int { b.bookingDate }
  function BookedEvent(b: Booking): int { b.eventId }

  /** `getUserBookings`: the caller's bookings, newest BookingDate first, each paired with its
      event; a booking whose event no longer loads is dropped. */
  method UserBookings(bookings: seq<Booking>, events: seq<Event>, userId: int)
    returns (views: seq<(Booking, Event)>)
    ensures SortedDesc(Firsts(views), BookingDate)
    ensures forall b :: (multiset(Firsts(views))[b]
      == if b.userId == userId && FindEvent(events, b.eventId).Some? then multiset(bookings)[b] else 0)
    ensures forall k :: 0 <= k < |views| ==>
      views[k].0.userId == userId && FindEvent(events, views[k].0.eventId) == Some(views[k].1)
  {
    views := ListWithEvents(bookings, BookingsOf(userId), BookingDate, BookedEvent, events);
  }
}
