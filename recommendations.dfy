/** Recommendations: the explicit (user, event) bookmarks with their unique key, and the
    behavioural recommendation that derives category and location signals from a user's
    bookings, reviews and searches and filters upcoming events by them. */
module Recommendations {
  import opened Collections
  import opened Text
  import opened Schema

  predicate HasRecommendation(recs: seq<Recommendation>, userId: int, eventId: int) {
    exists k :: 0 <= k < |recs| && recs[k].userId == userId && recs[k].eventId == eventId
  }

  /** `addRecommendation`: a falsy eventId answers 400; a pair already recommended violates
      the unique key and answers 409; otherwise one row stamped `now` is inserted and the
      answer is 201. */
  method AddRecommendation(db: Db, userId: int, eventId: Option<int>, now: int) returns (status: int)
    requires db.Valid()
    modifies db`recommendations, db`nextId
    ensures db.Valid()
    ensures !Truthy(eventId) ==>
      status == 400 && db.recommendations == old(db.recommendations) && db.nextId == old(db.nextId)
    ensures Truthy(eventId) && HasRecommendation(old(db.recommendations), userId, eventId.value) ==>
      status == 409 && db.recommendations == old(db.recommendations) && db.nextId == old(db.nextId)
    ensures Truthy(eventId) && !HasRecommendation(old(db.recommendations), userId, eventId.value) ==>
      && status == 201
      && db.recommendations == old(db.recommendations) + [Recommendation(old(db.nextId), userId, eventId.value, now)]
      && db.nextId == old(db.nextId) + 1
  {
    if !Truthy(eventId) {
      return 400;
    }
    if HasRecommendation(db.recommendations, userId, eventId.value) {
      return 409;
    }
    var r := Recommendation(db.nextId, userId, eventId.value, now);
    var t := db.recommendations + [r];
    forall i, j | 0 <= i < j < |t| ensures DifferentTarget(t[i], t[j]) {
      assert t[i] == db.recommendations[i];
      if j < |db.recommendations| {
        assert t[j] == db.recommendations[j];
      }
    }
    db.recommendations := t;
    db.nextId := db.nextId + 1;
    status := 201;
  }

  function RecommendedTo(userId: int): Recommendation -> bool { (r: Recommendation) => r.userId == userId }
  function RecommendedOn(r: Recommendation): int { r.recommendedOn }
  function RecommendedEvent(r: Recommendation): int { r.eventId }

  /** `getRecommendationsForUser`: the caller's recommendations, newest first, each with its
      event; a recommendation whose event no longer loads is skipped. */
  method RecommendationsForUser(recs: seq<Recommendation>, events: seq<Event>, userId: int)
    returns (views: seq<(Recommendation, Event)>)
    ensures SortedDesc(Firsts(views), RecommendedOn)
    ensures forall r :: (multiset(Firsts(views))[r]
      == if r.userId == userId && FindEvent(events, r.eventId).Some? then multiset(recs)[r] else 0)
    ensures forall k :: 0 <= k < |views| ==>
      views[k].0.userId == userId && FindEvent(events, views[k].0.eventId) == Some(views[k].1)
  {
    views := ListWithEvents(recs, RecommendedTo(userId), RecommendedOn, RecommendedEvent, events);
  }

  // ---------------------------------------------------------------------------------------
  // Category signal

  /** The names the join `EventCategories ec JOIN Categories c ON ec.CategoryID =
      c.CategoryID` gives one category id, one per matching Categories row. */
  function NamesOfCategory(cats: seq<Category>, categoryId: int): multiset<string> {
    if cats == [] then multiset{}
    else (if cats[0].id == categoryId then multiset{cats[0].name} else multiset{})
         + NamesOfCategory(cats[1..], categoryId)
  }

  /** The category names the join gives one event: one per (EventCategories, Categories) row
      pair. */
  function NamesOfEvent(ecs: seq<EventCategory>, cats: seq<Category>, eventId: int): multiset<string> {
    if ecs == [] then multiset{}
    else (if ecs[0].eventId == eventId then NamesOfCategory(cats, ecs[0].categoryId) else multiset{})
         + NamesOfEvent(ecs[1..], cats, eventId)
  }

  /** The multiset of category names over the rows of `activity JOIN Events JOIN
      EventCategories JOIN Categories`: each name as often as `COUNT(*)` of its group. */
  function ActivityNames(eventIds: seq<int>, events: seq<Event>, ecs: seq<EventCategory>,
                         cats: seq<Category>): multiset<string> {
    if eventIds == [] then multiset{}
    else (if FindEvent(events, eventIds[0]).Some? then NamesOfEvent(ecs, cats, eventIds[0]) else multiset{})
         + ActivityNames(eventIds[1..], events, ecs, cats)
  }

  /** The EventID of every booking the user holds, one per booking row, in table order:
      the `b.EventID` column of `Bookings b WHERE b.UserID = @userId`. */
  function BookedEventIds(bookings: seq<Booking>, userId: int): (ids: seq<int>)
    ensures |ids| == |Filter(bookings, BookingsOf(userId))|
    ensures forall k :: 0 <= k < |ids| ==> ids[k] == Filter(bookings, BookingsOf(userId))[k].eventId
    ensures forall id :: id in ids <==> exists b :: b in bookings && b.userId == userId && b.eventId == id
  {
    var rows := Filter(bookings, BookingsOf(userId));
    var ids := seq(|rows|, k requires 0 <= k < |rows| => rows[k].eventId);
    assert forall id :: id in ids <==> exists b :: b in bookings && b.userId == userId && b.eventId == id by {
      forall id ensures id in ids <==> exists b :: b in bookings && b.userId == userId && b.eventId == id {
        if id in ids {
          var k :| 0 <= k < |ids| && ids[k] == id;
          assert rows[k] in rows;
        }
        if exists b :: b in bookings && b.userId == userId && b.eventId == id {
          var b :| b in bookings && b.userId == userId && b.eventId == id;
          assert b in rows;
          var k :| 0 <= k < |rows| && rows[k] == b;
          assert ids[k] == id;
        }
      }
    }
    ids
  }

  /** The EventID of every review the user wrote, one per review row, in table order. */
  function ReviewedEventIds(reviews: seq<Review>, userId: int): (ids: seq<int>)
    ensures |ids| == |Filter(reviews, ReviewsOf(userId))|
    ensures forall k :: 0 <= k < |ids| ==> ids[k] == Filter(reviews, ReviewsOf(userId))[k].eventId
    ensures forall id :: id in ids <==> exists r :: r in reviews && r.userId == userId && r.eventId == id
  {
    var rows := Filter(reviews, ReviewsOf(userId));
    var ids := seq(|rows|, k requires 0 <= k < |rows| => rows[k].eventId);
    assert forall id :: id in ids <==> exists r :: r in reviews && r.userId == userId && r.eventId == id by {
      forall id ensures id in ids <==> exists r :: r in reviews && r.userId == userId && r.eventId == id {
        if id in ids {
          var k :| 0 <= k < |ids| && ids[k] == id;
          assert rows[k] in rows;
        }
        if exists r :: r in reviews && r.userId == userId && r.eventId == id {
          var r :| r in reviews && r.userId == userId && r.eventId == id;
          assert r in rows;
          var k :| 0 <= k < |rows| && rows[k] == r;
          assert ids[k] == id;
        }
      }
    }
    ids
  }

  /** A category name carries a group exactly when some Categories row with that id has it. */
  lemma {:induction false} NamesOfCategoryIn(cats: seq<Category>, categoryId: int, x: string)
    ensures x in NamesOfCategory(cats, categoryId) <==> exists c :: c in cats && c.id == categoryId && c.name == x
  {
    if cats != [] {
      NamesOfCategoryIn(cats[1..], categoryId, x);
      assert cats == [cats[0]] + cats[1..];
    }
  }

  /** A name is joined to an event exactly when one of the event's category rows names it. */
  lemma {:induction false} NamesOfEventIn(ecs: seq<EventCategory>, cats: seq<Category>, eventId: int, x: string)
    ensures x in NamesOfEvent(ecs, cats, eventId) <==>
      exists ec, c :: ec in ecs && ec.eventId == eventId && c in cats && c.id == ec.categoryId && c.name == x
  {
    if ecs != [] {
      NamesOfEventIn(ecs[1..], cats, eventId, x);
      NamesOfCategoryIn(cats, ecs[0].categoryId, x);
      assert ecs == [ecs[0]] + ecs[1..];
      if x in NamesOfEvent(ecs[1..], cats, eventId) {
        var ec, c :| ec in ecs[1..] && ec.eventId == eventId && c in cats && c.id == ec.categoryId && c.name == x;
        assert ec in ecs;
      }
    }
  }

  /** A name enters the activity counts exactly when it is a category of one of the listed
      events that still exists. */
  lemma {:induction false} ActivityNamesIn(eventIds: seq<int>, events: seq<Event>, ecs: seq<EventCategory>,
                                          cats: seq<Category>, x: string)
    ensures x in ActivityNames(eventIds, events, ecs, cats) <==>
      exists id :: id in eventIds && FindEvent(events, id).Some? && x in NamesOfEvent(ecs, cats, id)
  {
    if eventIds != [] {
      var joins := (id: int) => FindEvent(events, id).Some? && x in NamesOfEvent(ecs, cats, id);
      ActivityNamesIn(eventIds[1..], events, ecs, cats, x);
      assert x in ActivityNames(eventIds, events, ecs, cats) <==>
        joins(eventIds[0]) || x in ActivityNames(eventIds[1..], events, ecs, cats);
      SomeInCons(eventIds, joins);
    }
  }

  /** Some element of a non-empty sequence satisfies `p` exactly when its head or some
      element of its tail does. */
  lemma SomeInCons<T>(s: seq<T>, p: T -> bool)
    requires s != []
    ensures (exists y :: y in s && p(y)) <==> p(s[0]) || exists y :: y in s[1..] && p(y)
  {
    assert s == [s[0]] + s[1..];
    if exists y :: y in s[1..] && p(y) {
      var y :| y in s[1..] && p(y);
      assert y in s;
    }
  }

  /** The distinct names of a multiset (its GROUP BY groups). */
  ghost function Groups(counts: multiset<string>): set<string> {
    set x | x in counts
  }

  /** `SELECT TOP k Name ... GROUP BY Name ORDER BY COUNT(*) DESC`: `chosen` is one of the
      answers SQL Server may give, ties broken any way: it has min(k, #groups) group names, and
      no group left out outnumbers a chosen one. */
  ghost predicate IsTopK(chosen: set<string>, counts: multiset<string>, k: nat) {
    && chosen <= Groups(counts)
    && |chosen| == Min(k, |Groups(counts)|)
    && forall x, y :: x in chosen && y in counts && y !in chosen ==> counts[x] >= counts[y]
  }

  /** The category signal (the JavaScript Set filled from both TOP 3 answers) holds at most six
      names, each a category of an event the user booked or reviewed. */
  lemma CategorySignalBound(bookingTop: set<string>, reviewTop: set<string>,
                            bookings: seq<Booking>, reviews: seq<Review>, events: seq<Event>,
                            ecs: seq<EventCategory>, cats: seq<Category>, userId: int)
    requires IsTopK(bookingTop, ActivityNames(BookedEventIds(bookings, userId), events, ecs, cats), 3)
    requires IsTopK(reviewTop, ActivityNames(ReviewedEventIds(reviews, userId), events, ecs, cats), 3)
    ensures |bookingTop + reviewTop| <= 6
    ensures forall x :: x in bookingTop ==>
      exists b :: b in bookings && b.userId == userId && FindEvent(events, b.eventId).Some?
                  && x in NamesOfEvent(ecs, cats, b.eventId)
    ensures forall x :: x in reviewTop ==>
      exists r :: r in reviews && r.userId == userId && FindEvent(events, r.eventId).Some?
                  && x in NamesOfEvent(ecs, cats, r.eventId)
  {
    assert |bookingTop + reviewTop| <= |bookingTop| + |reviewTop|;
    forall x | x in bookingTop
      ensures exists b :: b in bookings && b.userId == userId && FindEvent(events, b.eventId).Some?
                          && x in NamesOfEvent(ecs, cats, b.eventId)
    {
      var ids := BookedEventIds(bookings, userId);
      ActivityNamesIn(ids, events, ecs, cats, x);
      var id :| id in ids && FindEvent(events, id).Some? && x in NamesOfEvent(ecs, cats, id);
      var b :| b in bookings && b.userId == userId && b.eventId == id;
    }
    forall x | x in reviewTop
      ensures exists r :: r in reviews && r.userId == userId && FindEvent(events, r.eventId).Some?
                          && x in NamesOfEvent(ecs, cats, r.eventId)
    {
      var ids := ReviewedEventIds(reviews, userId);
      ActivityNamesIn(ids, events, ecs, cats, x);
      var id :| id in ids && FindEvent(events, id).Some? && x in NamesOfEvent(ecs, cats, id);
      var r :| r in reviews && r.userId == userId && r.eventId == id;
    }
  }

  // ---------------------------------------------------------------------------------------
  // Location signal

  function EventSearchesBy(userId: int): SearchEntry -> bool {
    (s: SearchEntry) => s.userId == userId && s.searchType == "Event"
  }

  function SearchedAt(s: SearchEntry): int { s.searchedAt }

  /** `SELECT TOP 3 ... WHERE UserID AND SearchType = 'Event' ORDER BY SearchedAt DESC`: the
      user's three newest event searches (fewer when there are fewer), newest first. */
  function RecentSearches(history: seq<SearchEntry>, userId: int): (recent: seq<SearchEntry>)
    ensures |recent| == Min(3, |Filter(history, EventSearchesBy(userId))|)
    ensures SortedDesc(recent, SearchedAt)
    ensures forall k :: 0 <= k < |recent| ==>
      recent[k] in history && recent[k].userId == userId && recent[k].searchType == "Event"
    ensures recent == SelectOrdered(history, EventSearchesBy(userId), SearchedAt)[..|recent|]
  {
    var all := SelectOrdered(history, EventSearchesBy(userId), SearchedAt);
    var n := Min(3, |all|);
    SearchesSelected(all, history, userId);
    PrefixKeepsOrder(all, n, SearchedAt);
    all[..n]
  }

  /** The rows of the user's event searches are searches of the user, of type 'Event'. */
  lemma SearchesSelected(all: seq<SearchEntry>, history: seq<SearchEntry>, userId: int)
    requires forall x :: x in all <==> x in history && EventSearchesBy(userId)(x)
    ensures forall k :: 0 <= k < |all| ==>
      all[k] in history && all[k].userId == userId && all[k].searchType == "Event"
  {
    forall k | 0 <= k < |all| ensures all[k] in history && all[k].userId == userId && all[k].searchType == "Event" {
      assert all[k] in all;
      assert EventSearchesBy(userId)(all[k]);
    }
  }

  /** No event search of the user that TOP 3 leaves out is newer than one it keeps. */
  lemma RecentSearchesAreNewest(history: seq<SearchEntry>, userId: int, s: SearchEntry)
    requires s in history && s.userId == userId && s.searchType == "Event"
    requires multiset(RecentSearches(history, userId))[s] < multiset(history)[s]
    ensures forall k :: 0 <= k < |RecentSearches(history, userId)| ==>
      RecentSearches(history, userId)[k].searchedAt >= s.searchedAt
  {
    var all := SelectOrdered(history, EventSearchesBy(userId), SearchedAt);
    var n := Min(3, |all|);
    assert RecentSearches(history, userId) == all[..n];
    assert multiset(all)[s] == multiset(history)[s];
    PrefixDominates(all, n, SearchedAt, s);
  }

  /** The SearchQuery column of the recent searches: `topLocations`, duplicates kept. */
  function Queries(entries: seq<SearchEntry>): (locs: seq<string>)
    ensures |locs| == |entries| && forall k :: 0 <= k < |entries| ==> locs[k] == entries[k].query
  {
    seq(|entries|, k requires 0 <= k < |entries| => entries[k].query)
  }

  /** In a newest-first listing drawn from `history` plus one later entry, that entry comes
      first once it is listed. */
  lemma LaterEntryFirst(history: seq<SearchEntry>, entry: SearchEntry, listing: seq<SearchEntry>)
    requires forall s :: s in history ==> s.searchedAt < entry.searchedAt
    requires SortedDesc(listing, SearchedAt)
    requires forall x :: x in listing ==> x in history + [entry]
    requires entry in listing
    ensures listing[0] == entry
  {
    var k :| 0 <= k < |listing| && listing[k] == entry;
    assert SearchedAt(listing[0]) >= SearchedAt(listing[k]) by {
      if k > 0 {
        assert SortedDesc(listing, SearchedAt);
      }
    }
    assert listing[0] in history + [entry];
    assert listing[0] !in history;
  }

  /** A search logged after every earlier one of the user leads the location signal. */
  lemma NewestSearchLeads(history: seq<SearchEntry>, userId: int, query: string, now: int)
    requires forall s :: s in history ==> s.searchedAt < now
    ensures var recent := RecentSearches(history + [SearchEntry(userId, query, "Event", now)], userId);
      |recent| >= 1 && Queries(recent)[0] == query
  {
    var log := history + [SearchEntry(userId, query, "Event", now)];
    var all := SelectOrdered(log, EventSearchesBy(userId), SearchedAt);
    NewestListed(history, SearchEntry(userId, query, "Event", now), all, EventSearchesBy(userId));
    LeadingQuery(all, Min(3, |all|));
  }

  /** A selection from `history` plus a later entry that the WHERE clause keeps, listed
      newest first, starts with that entry. */
  lemma NewestListed(history: seq<SearchEntry>, entry: SearchEntry, listing: seq<SearchEntry>,
                     keep: SearchEntry -> bool)
    requires forall s :: s in history ==> s.searchedAt < entry.searchedAt
    requires SortedDesc(listing, SearchedAt) && keep(entry)
    requires forall x :: x in listing <==> x in history + [entry] && keep(x)
    ensures |listing| >= 1 && listing[0] == entry
  {
    assert entry in history + [entry];
    LaterEntryFirst(history, entry, listing);
  }

  /** The first query of a non-empty prefix is the query of the first row. */
  lemma LeadingQuery(all: seq<SearchEntry>, n: nat)
    requires 1 <= n <= |all|
    ensures |all[..n]| >= 1 && Queries(all[..n])[0] == all[0].query
  {
  }

  // ---------------------------------------------------------------------------------------
  // Candidates

  /** One row of `Events JOIN EventCategories JOIN Categories` for the event survives the
      category group: any row when there are no names, else a row naming one of them. */
  ghost predicate InCategories(e: Event, ecs: seq<EventCategory>, cats: seq<Category>, names: set<string>) {
    exists i, j :: 0 <= i < |ecs| && 0 <= j < |cats| && ecs[i].eventId == e.id
      && cats[j].id == ecs[i].categoryId && (names == {} || cats[j].name in names)
  }

  /** The location group: no locations, or the Location contains one of them. */
  predicate AtLocations(e: Event, locs: seq<string>) {
    locs == [] || exists k :: 0 <= k < |locs| && Contains(e.location, locs[k])
  }

  /** The candidate filter: upcoming (StartDate >= now), AND the category group, AND the
      location group. */
  ghost predicate IsCandidate(e: Event, ecs: seq<EventCategory>, cats: seq<Category>,
                              names: set<string>, locs: seq<string>, now: int) {
    e.startDate >= now && InCategories(e, ecs, cats, names) && AtLocations(e, locs)
  }

  /** The category group as the query evaluates it: some joined row qualifies. */
  function JoinedRows(e: Event, ecs: seq<EventCategory>, cats: seq<Category>, names: set<string>): (b: bool)
    ensures b <==> InCategories(e, ecs, cats, names)
  {
    exists i, j :: 0 <= i < |ecs| && 0 <= j < |cats| && ecs[i].eventId == e.id
      && cats[j].id == ecs[i].categoryId && (names == {} || cats[j].name in names)
  }

  function Candidate(ecs: seq<EventCategory>, cats: seq<Category>, names: set<string>,
                     locs: seq<string>, now: int): Event -> bool {
    (e: Event) => e.startDate >= now && JoinedRows(e, ecs, cats, names) && AtLocations(e, locs)
  }

  /** `SELECT DISTINCT e.EventID ... WHERE ...` before TOP 10. */
  function CandidateIds(events: seq<Event>, ecs: seq<EventCategory>, cats: seq<Category>,
                        names: set<string>, locs: seq<string>, now: int): (ids: seq<int>)
    ensures forall i, j :: 0 <= i < j < |ids| ==> ids[i] != ids[j]
    ensures forall id :: id in ids <==>
      exists e :: e in events && e.id == id && IsCandidate(e, ecs, cats, names, locs, now)
  {
    var matching := Filter(events, Candidate(ecs, cats, names, locs, now));
    CandidatesQualify(matching, events, ecs, cats, names, locs, now);
    IdsOfMembers(matching);
    Distinct(IdsOf(matching))
  }

  /** The rows the candidate WHERE clause keeps are exactly the candidate events. */
  lemma CandidatesQualify(matching: seq<Event>, events: seq<Event>, ecs: seq<EventCategory>, cats: seq<Category>,
                          names: set<string>, locs: seq<string>, now: int)
    requires forall e :: e in matching <==> e in events && Candidate(ecs, cats, names, locs, now)(e)
    ensures forall e :: e in matching <==> e in events && IsCandidate(e, ecs, cats, names, locs, now)
  {
    forall e ensures Candidate(ecs, cats, names, locs, now)(e) <==> IsCandidate(e, ecs, cats, names, locs, now) {
      assert JoinedRows(e, ecs, cats, names) <==> InCategories(e, ecs, cats, names);
    }
  }

  /** Both signals are empty: no history to go on. */
  predicate NoSignal(names: set<string>, locs: seq<string>) { names == {} && locs == [] }

  /** `getBehavioralRecommendations`. `bookingTop` and `reviewTop` are the answers of the two
      TOP 3 category queries (any answer SQL Server may give). With neither categories nor
      recent searches the answer is 404 and no candidate is looked at; otherwise the answer is
      200 with up to 10 distinct upcoming events, each passing both signal groups. */
  method BehavioralRecommendations(events: seq<Event>, bookings: seq<Booking>, reviews: seq<Review>,
                                   ecs: seq<EventCategory>, cats: seq<Category>,
                                   history: seq<SearchEntry>, userId: int, now: int,
                                   bookingTop: set<string>, reviewTop: set<string>)
    returns (status: int, recommended: seq<Event>)
    requires UniqueEventIds(events)
    requires IsTopK(bookingTop, ActivityNames(BookedEventIds(bookings, userId), events, ecs, cats), 3)
    requires IsTopK(reviewTop, ActivityNames(ReviewedEventIds(reviews, userId), events, ecs, cats), 3)
    ensures var names := bookingTop + reviewTop;
      var locs := Queries(RecentSearches(history, userId));
      && (status == 404 <==> NoSignal(names, locs))
      && (status == 404 ==> recommended == [])
      && (status != 404 ==>
            && status == 200
            && |recommended| == Min(10, |CandidateIds(events, ecs, cats, names, locs, now)|)
            && (forall k :: 0 <= k < |recommended| ==>
                  recommended[k] in events && IsCandidate(recommended[k], ecs, cats, names, locs, now))
            && (forall i, j :: 0 <= i < j < |recommended| ==> recommended[i].id != recommended[j].id))
  {
    var names := bookingTop + reviewTop;
    var locs := Queries(RecentSearches(history, userId));
    if NoSignal(names, locs) {
      return 404, [];
    }
    var ids := CandidateIds(events, ecs, cats, names, locs, now);
    ghost var qualifies := (e: Event) => IsCandidate(e, ecs, cats, names, locs, now);
    recommended := LoadFirstTen(events, ids, qualifies);
    status := 200;
  }

  /** The loop over the first ten candidate ids, each loaded by id. The ids are distinct and
      each names a qualifying event, so none is dropped and the events are distinct. */
  method LoadFirstTen(events: seq<Event>, ids: seq<int>, ghost qualifies: Event -> bool)
    returns (loaded: seq<Event>)
    requires UniqueEventIds(events)
    requires forall i, j :: 0 <= i < j < |ids| ==> ids[i] != ids[j]
    requires forall id :: id in ids ==> exists e :: e in events && e.id == id && qualifies(e)
    ensures |loaded| == Min(10, |ids|)
    ensures forall k :: 0 <= k < |loaded| ==> loaded[k] in events && qualifies(loaded[k])
    ensures forall i, j :: 0 <= i < j < |loaded| ==> loaded[i].id != loaded[j].id
  {
    var picks := ids[..Min(10, |ids|)];
    var views := Hydrate(picks, EventIdOf, events);
    forall x | x in picks ensures exists e :: e in events && e.id == x && qualifies(e) {
      assert x in ids;
    }
    PicksLoad(events, picks, views, qualifies);
    loaded := Seconds(views);
  }

  /** Loading events by ids that each name a qualifying event drops no id, and loads for
      each id, in order, the qualifying event with that id. */
  lemma PicksLoad(events: seq<Event>, picks: seq<int>, views: seq<(int, Event)>, qualifies: Event -> bool)
    requires UniqueEventIds(events)
    requires forall x :: x in picks ==> exists e :: e in events && e.id == x && qualifies(e)
    requires Firsts(views) == Filter(picks, Loads(events, EventIdOf))
    requires forall k :: 0 <= k < |views| ==> FindEvent(events, EventIdOf(views[k].0)) == Some(views[k].1)
    ensures |views| == |picks|
    ensures forall k :: 0 <= k < |views| ==>
      views[k].1 in events && views[k].1.id == picks[k] && qualifies(views[k].1)
  {
    forall x | x in picks ensures Loads(events, EventIdOf)(x) {
      var e :| e in events && e.id == x && qualifies(e);
      FindEventUnique(events, e);
      assert FindEvent(events, EventIdOf(x)).Some?;
    }
    FilterKeepsAll(picks, Loads(events, EventIdOf));
    forall k | 0 <= k < |views|
      ensures views[k].1 in events && views[k].1.id == picks[k] && qualifies(views[k].1)
    {
      assert views[k].0 == Firsts(views)[k] == picks[k];
      assert picks[k] in picks;
      var e :| e in events && e.id == picks[k] && qualifies(e);
      FindEventUnique(events, e);
    }
  }

  /** A user with no bookings, no reviews and no searches gets 404: both signals are empty. */
  lemma NoHistoryNoSignal(bookingTop: set<string>, reviewTop: set<string>, events: seq<Event>,
                          ecs: seq<EventCategory>, cats: seq<Category>, userId: int)
    requires IsTopK(bookingTop, ActivityNames(BookedEventIds([], userId), events, ecs, cats), 3)
    requires IsTopK(reviewTop, ActivityNames(ReviewedEventIds([], userId), events, ecs, cats), 3)
    ensures NoSignal(bookingTop + reviewTop, Queries(RecentSearches([], userId)))
  {
    assert Groups(multiset{}) == {};
  }

  /** The groups are joined with AND: an event whose Location contains none of the recent
      searches is never recommended, however well its categories match. */
  lemma LocationGroupIsConjoined(e: Event, ecs: seq<EventCategory>, cats: seq<Category>,
                                 names: set<string>, locs: seq<string>, now: int)
    requires locs != [] && forall k :: 0 <= k < |locs| ==> !Contains(e.location, locs[k])
    ensures !IsCandidate(e, ecs, cats, names, locs, now)
  {
  }
}
