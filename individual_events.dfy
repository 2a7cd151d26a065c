/** The individual event handlers. They issue the same statements as the company variant,
    but one at a time on the pool without a transaction, so a statement the server rejects
    leaves the earlier ones in place; an update that sets no column skips the UPDATE. */
module IndividualEvents {
  import opened Collections
  import opened Schema
  import opened EventEdits

  /** The `price = 0` destructuring default: it applies only when price is absent, so JSON
      null is stored as NULL and 0 as 0. */
  function IndividualPrice(price: Option<Option<int>>): (r: Option<int>)
    ensures price.None? ==> r == Some(0)
    ensures price.Some? ==> r == price.value
  {
    if price.Some? then price.value else Some(0)
  }

  /** `createEvent`: 400 and nothing written when a required field is missing. Otherwise
      the statements of the create run until one is rejected: whatever ran stays, the answer
      is 201 with the new id only when all of them ran, and 500 otherwise; an identity value
      is drawn once the event row is in. */
  method CreateEvent(db: Db, userId: int, body: EventBody, now: int, fault: Option<nat>)
    returns (status: int, eventId: Option<int>)
    requires db.Valid()
    modifies db`events, db`eventCategories, db`maps, db`nextId
    ensures db.Valid()
    ensures !CreateFieldsValid(body) ==>
      status == 400 && eventId.None? && TablesOf(db) == old(TablesOf(db)) && db.nextId == old(db.nextId)
    ensures CreateFieldsValid(body) ==>
      var e := NewEvent(old(db.nextId), userId, body, IndividualPrice(body.price), now);
      var plan := CreatePlan(e, body);
      var k := StatementsRun(plan, fault);
      && TablesOf(db) == ApplyAll(old(TablesOf(db)), plan[..k])
      && db.events == (if k == 0 then old(db.events) else old(db.events) + [e])
      && db.nextId == (if k == 0 then old(db.nextId) else old(db.nextId) + 1)
      && (k == |plan| ==> status == 201 && eventId == Some(e.id))
      && (k < |plan| ==> status == 500 && eventId.None?)
  {
    if !CreateFieldsValid(body) {
      return 400, None;
    }
    var e := NewEvent(db.nextId, userId, body, IndividualPrice(body.price), now);
    var plan := CreatePlan(e, body);
    var ok := Execute(db, plan, fault);
    var k := StatementsRun(plan, fault);
    CreatePrefixApplied(old(TablesOf(db)), e, body, k);
    if k > 0 {
      AppendFreshKeepsKeys(old(db.events), e, db.nextId);
      db.nextId := db.nextId + 1;
    }
    if ok {
      status, eventId := 201, Some(e.id);
    } else {
      status, eventId := 500, None;
    }
  }

  /** A create interrupted after the event row answers 500 yet leaves the event, with the
      category rows that were already written, in the tables. */
  lemma InterruptedCreateKeepsEvent(t: Tables, e: Event, body: EventBody, k: nat)
    requires CreateFieldsValid(body) && 1 <= k < |CreatePlan(e, body)|
    ensures var after := ApplyAll(t, CreatePlan(e, body)[..k]);
      && e in after.events
      && after.eventCategories == t.eventCategories + CategoryRows(e.id, body.categories.value)[..k - 1]
      && after.maps == t.maps
  {
    CreatePrefixApplied(t, e, body, k);
    assert k - 1 <= |body.categories.value|;
  }

  function CreatedAt(e: Event): int { e.createdAt }

  /** `getMyEvents`: the caller's events, each loaded by id, newest CreatedAt first. */
  method GetMyEvents(events: seq<Event>, userId: int) returns (listing: seq<Event>)
    requires UniqueEventIds(events)
    ensures SortedDesc(listing, CreatedAt)
    ensures forall e :: multiset(listing)[e] == if e.ownerId == userId then multiset(events)[e] else 0
  {
    listing := OwnEvents(events, userId, CreatedAt);
  }

  /** `updateEvent`: 403 and nothing changes when the event is absent or another user's.
      Otherwise the UPDATE (skipped when it would set no column), the category replacement
      and the coordinate upsert run until one is rejected: whatever ran stays, the answer is
      200 only when all of them ran and 500 otherwise. */
  method UpdateEvent(db: Db, userId: int, eventId: int, body: EventBody, fault: Option<nat>)
    returns (status: int)
    requires db.Valid()
    modifies db`events, db`eventCategories, db`maps
    ensures db.Valid()
    ensures !Owns(old(db.events), eventId, userId) ==>
      status == 403 && TablesOf(db) == old(TablesOf(db))
    ensures Owns(old(db.events), eventId, userId) ==>
      var plan := UpdatePlan(eventId, body, !NoColumns(UpdateColumns(body)));
      var k := StatementsRun(plan, fault);
      && TablesOf(db) == ApplyAll(old(TablesOf(db)), plan[..k])
      && (k == |plan| ==> status == 200 && TablesOf(db) == Edited(old(TablesOf(db)), eventId, body))
      && (k < |plan| ==> status == 500)
  {
    if !Owns(db.events, eventId, userId) {
      return 403;
    }
    var withUpdate := !NoColumns(UpdateColumns(body));
    var plan := UpdatePlan(eventId, body, withUpdate);
    var ok := Execute(db, plan, fault);
    var k := StatementsRun(plan, fault);
    UpdatePrefixEvents(old(TablesOf(db)), eventId, body, withUpdate, k);
    SetColumnsKeepsKeys(old(db.events), eventId, UpdateColumns(body), db.nextId);
    if ok {
      assert plan[..k] == plan;
      UpdatePlanApplied(old(TablesOf(db)), eventId, body, withUpdate);
      status := 200;
    } else {
      status := 500;
    }
  }

  /** A body that sets no column, carries no category array and leaves a coordinate
      undefined succeeds here with nothing written, where the company variant answers 500. */
  lemma EmptyUpdateSucceeds(eventId: int, body: EventBody, fault: Option<nat>)
    requires NoColumns(UpdateColumns(body)) && body.categories.None?
    requires !Supplied(body.latitude) || !Supplied(body.longitude)
    ensures var plan := UpdatePlan(eventId, body, false);
      plan == [] && StatementsRun(plan, fault) == |plan|
  {
  }
}
