/** The company event handlers: a create and an update that run inside one transaction each,
    the company's own listing, and the owner-gated delete (`EventEdits.DeleteOwnedEvent`). */
module CompanyEvents {
  import opened Collections
  import opened Schema
  import opened EventEdits

  /** `price || 0`: a falsy price (absent, null or 0) is stored as 0. */
  function CompanyPrice(price: Option<Option<int>>): (r: Option<int>)
    ensures r.Some?
    ensures TruthyValue(price) ==> r == price.value
    ensures !TruthyValue(price) ==> r == Some(0)
  {
    if TruthyValue(price) then price.value else Some(0)
  }

  /** `createCompanyEvent`: 400 and nothing written when a required field is missing.
      Otherwise the event row, one EventCategories row per id and, when both coordinates
      are truthy, one map row are written in one transaction: all of them and 201 with the
      new id, or (a statement rejected) none of them and 500. */
  method CreateCompanyEvent(db: Db, companyId: int, body: EventBody, now: int, fault: Option<nat>)
    returns (status: int, eventId: Option<int>)
    requires db.Valid()
    modifies db`events, db`eventCategories, db`maps, db`nextId
    ensures db.Valid()
    ensures !CreateFieldsValid(body) ==>
      status == 400 && eventId.None? && TablesOf(db) == old(TablesOf(db)) && db.nextId == old(db.nextId)
    ensures CreateFieldsValid(body) ==>
      var e := NewEvent(old(db.nextId), companyId, body, CompanyPrice(body.price), now);
      if StatementsRun(CreatePlan(e, body), fault) == |CreatePlan(e, body)| then
        && status == 201 && eventId == Some(e.id) && db.nextId == old(db.nextId) + 1
        && db.events == old(db.events) + [e]
        && db.eventCategories == old(db.eventCategories) + CategoryRows(e.id, body.categories.value)
        && db.maps == old(db.maps) + CreateMapRows(e.id, body)
      else
        status == 500 && eventId.None? && TablesOf(db) == old(TablesOf(db)) && db.nextId == old(db.nextId)
  {
    if !CreateFieldsValid(body) {
      return 400, None;
    }
    var e := NewEvent(db.nextId, companyId, body, CompanyPrice(body.price), now);
    var plan := CreatePlan(e, body);
    var ok := ExecuteInTransaction(db, plan, fault);
    if !ok {
      return 500, None;
    }
    assert plan[..|plan|] == plan;
    CreatePrefixApplied(old(TablesOf(db)), e, body, |plan|);
    AppendFreshKeepsKeys(old(db.events), e, db.nextId);
    db.nextId := db.nextId + 1;
    status, eventId := 201, Some(e.id);
  }

  /** ORDER BY EventID ASC, as a descending order on the negated key. */
  function NegatedId(e: Event): int { -e.id }

  /** `getCompanyEvents`: the company's events, each loaded by id, in ascending EventID. */
  method GetCompanyEvents(events: seq<Event>, companyId: int) returns (listing: seq<Event>)
    requires UniqueEventIds(events)
    ensures forall i, j :: 0 <= i < j < |listing| ==> listing[i].id <= listing[j].id
    ensures forall e :: multiset(listing)[e] == if e.ownerId == companyId then multiset(events)[e] else 0
  {
    listing := OwnEvents(events, companyId, NegatedId);
    forall i, j | 0 <= i < j < |listing| ensures listing[i].id <= listing[j].id {
      assert NegatedId(listing[i]) >= NegatedId(listing[j]);
    }
  }

  /** `updateCompanyEvent`: 403 and nothing changes when the event is absent or another
      user's. Otherwise the UPDATE of the supplied columns, the category replacement and
      the coordinate upsert run in one transaction: all of them and 200, or none and 500.
      A body that supplies no column makes the UPDATE text `SET  WHERE` malformed, so that
      update is always rejected with 500. This handler reads the category array from the
      body key `category`, which `body.categories` stands for here. */
  method UpdateCompanyEvent(db: Db, companyId: int, eventId: int, body: EventBody, fault: Option<nat>)
    returns (status: int)
    requires db.Valid()
    modifies db`events, db`eventCategories, db`maps
    ensures db.Valid()
    ensures !Owns(old(db.events), eventId, companyId) ==>
      status == 403 && TablesOf(db) == old(TablesOf(db))
    ensures Owns(old(db.events), eventId, companyId) && NoColumns(UpdateColumns(body)) ==>
      status == 500 && TablesOf(db) == old(TablesOf(db))
    ensures Owns(old(db.events), eventId, companyId) && !NoColumns(UpdateColumns(body)) ==>
      var plan := UpdatePlan(eventId, body, true);
      if StatementsRun(plan, fault) == |plan|
      then status == 200 && TablesOf(db) == Edited(old(TablesOf(db)), eventId, body)
      else status == 500 && TablesOf(db) == old(TablesOf(db))
  {
    if !Owns(db.events, eventId, companyId) {
      return 403;
    }
    var plan := UpdatePlan(eventId, body, true);
    // The server rejects the first statement when its SET list is empty.
    var rejected := if NoColumns(UpdateColumns(body)) then Some(0) else fault;
    var ok := ExecuteInTransaction(db, plan, rejected);
    if !ok {
      return 500;
    }
    UpdatePlanApplied(old(TablesOf(db)), eventId, body, true);
    SetColumnsKeepsKeys(old(db.events), eventId, UpdateColumns(body), db.nextId);
    status := 200;
  }
}
