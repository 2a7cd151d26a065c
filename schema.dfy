/** The SQL Server tables the handlers read and write, held in memory by one `Db` object,
    and the row lookups several handlers share. Money is in integer cents, coordinates in
    integer micro-degrees, instants in integer clock ticks. */
module Schema {
  import opened Collections

  datatype PaymentStatus = Pending | Completed | Failed

  /** A row of Events. `ownerId` is the CompanyID column, which holds the creating user for
      both company and individual events; `maxAttendees == None` is NULL (no limit). */
  datatype Event = Event(id: int, ownerId: int, title: string, description: string,
                         location: string, price: Option<int>, currency: string,
                         startDate: int, endDate: int, maxAttendees: Option<int>,
                         createdAt: int)

  datatype Category = Category(id: int, name: string)
  datatype EventCategory = EventCategory(eventId: int, categoryId: int)
  /** A row of MapsIntegration; NULL coordinates are `None`. */
  datatype MapPoint = MapPoint(eventId: int, latitude: Option<int>, longitude: Option<int>)
  datatype Booking = Booking(id: int, userId: int, eventId: int, bookingDate: int)
  datatype Payment = Payment(id: int, userId: int, eventId: int, payMethod: string, amount: int,
                             status: PaymentStatus, transactionDate: int)
  datatype Review = Review(id: int, userId: int, eventId: int, rating: Option<int>,
                           text: Option<string>, createdAt: int)
  datatype SearchEntry = SearchEntry(userId: int, query: string, searchType: string,
                                     searchedAt: int)
  datatype Recommendation = Recommendation(id: int, userId: int, eventId: int,
                                           recommendedOn: int)
  datatype Ad = Ad(id: int, companyId: int, content: string, targetCategory: Option<string>,
                   targetLocation: Option<string>, startDate: int, endDate: int, cost: int)
  /** A row of Users; `passwordHash` is the stored bcrypt string. */
  datatype User = User(id: int, fullName: Option<string>, email: string, passwordHash: string,
                       userType: string, profilePicture: Option<string>)
  datatype MajorCategory = MajorCategory(id: int, name: string)

  /** The verdict of a handler's guard chain: go ahead, or answer with an error status. */
  datatype Verdict = Admitted | Refused(status: int)

  /** A request-body number is truthy: present, not null and not 0. */
  predicate Truthy(x: Option<int>) { x.Some? && x.value != 0 }

  /** A request-body string is truthy: present, not null and not empty. */
  predicate Filled(x: Option<string>) { x.Some? && x.value != "" }

  /** `x || null`: an absent, null or empty string is stored as NULL. */
  function OrNull(x: Option<string>): (r: Option<string>)
    ensures r.Some? <==> Filled(x)
    ensures r.Some? ==> r == x
  {
    if Filled(x) then x else None
  }

  /** A field that may be absent (`None`), JSON null (`Some(None)`) or a number. The handlers
      test it with `!== undefined`, which only absence fails. */
  predicate Supplied(x: Option<Option<int>>) { x.Some? }

  /** The same field tested for truthiness (present, not null, not 0). */
  predicate TruthyValue(x: Option<Option<int>>) { x.Some? && x.value.Some? && x.value.value != 0 }

  /** Two bookings are for different (user, event) pairs. */
  predicate DifferentPair(a: Booking, b: Booking) {
    a.userId != b.userId || a.eventId != b.eventId
  }

  /** At most one Bookings row for each (user, event) pair. */
  ghost predicate OneBookingPerPair(bs: seq<Booking>) { Pairwise(bs, DifferentPair) }

  predicate DifferentTarget(a: Recommendation, b: Recommendation) {
    a.userId != b.userId || a.eventId != b.eventId
  }

  /** The unique key of Recommendations on (UserID, EventID). */
  ghost predicate OneRecommendationPerPair(rs: seq<Recommendation>) {
    Pairwise(rs, DifferentTarget)
  }

  predicate DifferentEventIds(a: Event, b: Event) { a.id != b.id }

  /** EventID is the primary key of Events. */
  ghost predicate UniqueEventIds(es: seq<Event>) { Pairwise(es, DifferentEventIds) }

  predicate DifferentUserIds(a: User, b: User) { a.id != b.id }

  /** UserID is the primary key of Users. */
  ghost predicate UniqueUserIds(us: seq<User>) { Pairwise(us, DifferentUserIds) }

  /** The database. Identity columns draw from `nextId`, which only grows. */
  class Db {
    var users: seq<User>
    var events: seq<Event>
    var categories: seq<Category>
    var eventCategories: seq<EventCategory>
    var maps: seq<MapPoint>
    var bookings: seq<Booking>
    var payments: seq<Payment>
    var reviews: seq<Review>
    var searchHistory: seq<SearchEntry>
    var recommendations: seq<Recommendation>
    var ads: seq<Ad>
    var majorCategories: seq<MajorCategory>
    var nextId: int

    /** Identity values are fresh, primary keys and the unique keys the handlers rely on
        hold. */
    ghost predicate Valid()
      reads this
    {
      && (forall e :: e in events ==> e.id < nextId)
      && (forall u :: u in users ==> u.id < nextId)
      && (forall b :: b in bookings ==> b.id < nextId)
      && (forall p :: p in payments ==> p.id < nextId)
      && (forall r :: r in reviews ==> r.id < nextId)
      && (forall r :: r in recommendations ==> r.id < nextId)
      && (forall a :: a in ads ==> a.id < nextId)
      && (forall m :: m in majorCategories ==> m.id < nextId)
      && UniqueEventIds(events)
      && UniqueUserIds(users)
      && OneBookingPerPair(bookings)
      && OneRecommendationPerPair(recommendations)
    }

    /** A database holding the given categories and nothing else. */
    constructor (categoryRows: seq<Category>)
      ensures Valid()
      ensures categories == categoryRows && nextId == 1
      ensures users == [] && events == [] && eventCategories == [] && maps == []
      ensures bookings == [] && payments == [] && reviews == [] && searchHistory == []
      ensures recommendations == [] && ads == [] && majorCategories == []
    {
      users, events, categories, eventCategories, maps := [], [], categoryRows, [], [];
      bookings, payments, reviews, searchHistory := [], [], [], [];
      recommendations, ads, majorCategories, nextId := [], [], [], 1;
    }
  }

  /** `SELECT ... FROM Events WHERE EventID = id`, first row (`recordset[0]`). */
  function FindEvent(events: seq<Event>, id: int): (r: Option<Event>)
    ensures r.Some? ==> r.value in events && r.value.id == id
    ensures r.None? <==> forall e :: e in events ==> e.id != id
  {
    if events == [] then None
    else if events[0].id == id then Some(events[0])
    else FindEvent(events[1..], id)
  }

  /** With unique event ids the lookup returns the one row carrying the id. */
  lemma {:induction false} FindEventUnique(events: seq<Event>, e: Event)
    requires UniqueEventIds(events) && e in events
    ensures FindEvent(events, e.id) == Some(e)
  {
    if events[0] != e {
      assert events[0].id != e.id by {
        var k :| 0 <= k < |events| && events[k] == e;
      }
      assert e in events[1..];
      FindEventUnique(events[1..], e);
    }
  }

  /** The owner test of the update and delete handlers: the event exists and its CompanyID
      is the caller. */
  predicate Owns(events: seq<Event>, eventId: int, userId: int) {
    var found := FindEvent(events, eventId);
    found.Some? && found.value.ownerId == userId
  }

  function FindUser(users: seq<User>, id: int): (r: Option<User>)
    ensures r.Some? ==> r.value in users && r.value.id == id
    ensures r.None? <==> forall u :: u in users ==> u.id != id
  {
    if users == [] then None
    else if users[0].id == id then Some(users[0])
    else FindUser(users[1..], id)
  }

  /** `SELECT * FROM Bookings WHERE UserID = @userId AND EventID = @eventId` is non-empty. */
  predicate HasBooking(bookings: seq<Booking>, userId: int, eventId: int) {
    exists k :: 0 <= k < |bookings| && bookings[k].userId == userId && bookings[k].eventId == eventId
  }

  /** `SELECT COUNT(*) FROM Bookings WHERE EventID = @eventId`. */
  function CountFor(bookings: seq<Booking>, eventId: int): nat {
    if bookings == [] then 0
    else (if bookings[0].eventId == eventId then 1 else 0) + CountFor(bookings[1..], eventId)
  }

  /** A Payments row for the pair with PaymentStatus 'Completed' exists. */
  predicate HasCompletedPayment(payments: seq<Payment>, userId: int, eventId: int) {
    exists k :: 0 <= k < |payments| && payments[k].userId == userId
      && payments[k].eventId == eventId && payments[k].status == Completed
  }

  /** The EventID column of a listing of events. */
  function IdsOf(es: seq<Event>): (ids: seq<int>)
    ensures |ids| == |es| && forall k :: 0 <= k < |es| ==> ids[k] == es[k].id
  {
    seq(|es|, k requires 0 <= k < |es| => es[k].id)
  }

  /** An id is in the EventID column exactly when some listed event carries it. */
  lemma IdsOfMembers(es: seq<Event>)
    ensures forall id :: id in IdsOf(es) <==> exists e :: e in es && e.id == id
  {
    forall id ensures id in IdsOf(es) <==> exists e :: e in es && e.id == id {
      if id in IdsOf(es) {
        var k :| 0 <= k < |es| && IdsOf(es)[k] == id;
        assert es[k] in es;
      }
      if exists e :: e in es && e.id == id {
        var e :| e in es && e.id == id;
        var k :| 0 <= k < |es| && es[k] == e;
        assert IdsOf(es)[k] == id;
      }
    }
  }

  /** A listing of bare EventIDs, each row its own event id. */
  function EventIdOf(id: int): int { id }

  /** `WHERE b.UserID = @userId` on Bookings and `WHERE r.UserID = @userId` on Reviews. */
  function BookingsOf(userId: int): Booking -> bool { (b: Booking) => b.userId == userId }
  function ReviewsOf(userId: int): Review -> bool { (r: Review) => r.userId == userId }

  /** The rows whose event still loads through `getFullEventById`. */
  function Loads<R>(events: seq<Event>, eventOf: R -> int): R -> bool {
    r => FindEvent(events, eventOf(r)).Some?
  }

  /** The listing loops: for each row, load its event, keep the row (paired with the loaded
      event) only when the event exists. */
  method Hydrate<R(!new)>(rows: seq<R>, eventOf: R -> int, events: seq<Event>)
    returns (views: seq<(R, Event)>)
    ensures Firsts(views) == Filter(rows, Loads(events, eventOf))
    ensures forall k :: 0 <= k < |views| ==> FindEvent(events, eventOf(views[k].0)) == Some(views[k].1)
  {
    views := [];
    var i := 0;
    while i < |rows|
      invariant 0 <= i <= |rows|
      invariant Firsts(views) == Filter(rows[..i], Loads(events, eventOf))
      invariant forall k :: 0 <= k < |views| ==> FindEvent(events, eventOf(views[k].0)) == Some(views[k].1)
    {
      var found := FindEvent(events, eventOf(rows[i]));
      FilterSnoc(rows[..i], rows[i], Loads(events, eventOf));
      assert rows[..i + 1] == rows[..i] + [rows[i]];
      if found.Some? {
        views := views + [(rows[i], found.value)];
      }
      i := i + 1;
    }
    assert rows[..i] == rows;
  }

  /** The listing handlers: `SELECT ... WHERE keep ORDER BY key DESC`, then the loop that
      loads each row's event. Every selected row whose event loads appears as often as in the
      table, paired with its event, in `key` order. */
  method ListWithEvents<R(!new)>(rows: seq<R>, keep: R -> bool, key: R -> int, eventOf: R -> int,
                                 events: seq<Event>) returns (views: seq<(R, Event)>)
    ensures SortedDesc(Firsts(views), key)
    ensures forall r :: multiset(Firsts(views))[r] ==
                          if keep(r) && FindEvent(events, eventOf(r)).Some? then multiset(rows)[r] else 0
    ensures forall k :: 0 <= k < |views| ==>
      keep(views[k].0) && FindEvent(events, eventOf(views[k].0)) == Some(views[k].1)
  {
    var selected := SelectOrdered(rows, keep, key);
    views := Hydrate(selected, eventOf, events);
    FilterKeepsOrder(selected, Loads(events, eventOf), key);
    FilterCount(selected, Loads(events, eventOf));
    forall k | 0 <= k < |views| ensures keep(views[k].0) {
      assert Firsts(views)[k] in Filter(selected, Loads(events, eventOf));
    }
  }
}
